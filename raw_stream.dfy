/** `RawStream` (RawStream.cs): a stream wrapper that reads and writes the
    values of the Minecraft protocol. The wrapped stream is split in two:
    what is read from it (`inbound`, see `Transport`) and everything
    written to it (`output`). The cancellation token is the list of answers
    its successive `IsCancellationRequested` checks get. */
module RawStreams {
  import opened Results
  import opened Wire
  import opened Transport

  class RawStream {
    /** The side of the wrapped stream that is read. */
    var inbound: Inbound
    /** The answers of the successive `IsCancellationRequested` checks;
        once they are used up the answer is "no", as for
        `CancellationToken.None`. */
    const cancels: seq<bool>
    /** How many of those answers have been asked for. */
    var asked: nat
    /** Every byte written to the wrapped stream, in order. */
    var output: seq<byte>
    /** The wrapped stream is a `MemoryStream`, which hands over all it
        has at once. */
    const isMemory: bool

    ghost predicate Valid()
      reads this
    {
      inbound.Valid() && (isMemory ==> inbound.caps == []) && asked <= |cancels|
    }

    /** `RawStream(Stream stream, CancellationToken token)`; the one-argument
        form passes a token that is never cancelled (no answers). */
    constructor (data: seq<byte>, caps: seq<nat>, cancels: seq<bool>, isMemory: bool)
      requires isMemory ==> caps == []
      ensures Valid() && this.isMemory == isMemory
      ensures inbound == Inbound(data, 0, caps) && this.cancels == cancels && asked == 0 && output == []
    {
      inbound := Inbound(data, 0, caps);
      this.cancels := cancels;
      asked := 0;
      output := [];
      this.isMemory := isMemory;
    }

    /** `RawStream(byte[] buffer, CancellationToken token)`: a `MemoryStream`
        over the buffer. */
    constructor FromBuffer(buffer: seq<byte>, cancels: seq<bool>)
      ensures Valid() && isMemory
      ensures inbound == Inbound(buffer, 0, []) && this.cancels == cancels && asked == 0 && output == []
    {
      inbound := Inbound(buffer, 0, []);
      this.cancels := cancels;
      asked := 0;
      output := [];
      isMemory := true;
    }

    /** One primitive read of at most `count` bytes from the wrapped stream
        (`Read(byte[], int, int)` and the overridden `ReadAsync`). A read that
        delivers nothing while bytes remain is one that failed (`Fails`): the
        `catch` of `ReadAsync` returns 0 for it, and callers of the
        synchronous read, which has no `catch`, check `Fails` first. */
    method Read(count: nat) returns (got: seq<byte>)
      requires Valid()
      modifies this
      ensures Valid() && inbound == Advance(old(inbound), count)
      ensures got == old(inbound).data[old(inbound).pos..inbound.pos] && |got| <= count
      ensures asked == old(asked) && output == old(output)
    {
      var s := inbound;
      inbound := Advance(s, count);
      got := s.data[s.pos..inbound.pos];
    }

    /** One check of `CancellationToken.IsCancellationRequested`. */
    method IsCancellationRequested() returns (c: bool)
      requires Valid()
      modifies this
      ensures Valid() && inbound == old(inbound) && output == old(output)
      ensures old(asked) == |cancels| ==> !c && asked == old(asked)
      ensures old(asked) < |cancels| ==> c == cancels[old(asked)] && asked == old(asked) + 1
    {
      if asked == |cancels| {
        c := false;
      } else {
        c := cancels[asked];
        asked := asked + 1;
      }
    }

    /** `ReadAsync(int length)`: reads into a fresh buffer of `length` bytes
        until it is full or, after a read that left it short, the token is
        cancelled. A negative length fails as `new byte[length]` does. A
        stream with nothing left that is never cancelled would keep the
        loop waiting forever; the model reports that as `Diverges`. */
    method ReadAsync(length: int) returns (r: Result<seq<byte>, Fault>)
      requires Valid()
      modifies this
      ensures Valid() && output == old(output) && inbound.data == old(inbound).data
      ensures length < 0 <==> r == Failure(Overflow)
      ensures length < 0 ==> inbound == old(inbound) && asked == old(asked)
      ensures r.Failure? && length >= 0 ==>
                r.error == Diverges && Stuck(inbound, cancels, asked) && NoCancel(cancels, old(asked))
      ensures r.Ok? ==> old(inbound).pos <= inbound.pos <= old(inbound).pos + length
      ensures r.Ok? ==> r.value == Received(old(inbound), inbound, length)
      ensures r.Ok? ==> Consumed(cancels, old(asked), asked, inbound.pos < old(inbound).pos + length)
      ensures r.Ok? && NoCancel(cancels, old(asked)) ==>
                inbound.pos == old(inbound).pos + length &&
                r.value == old(inbound).data[old(inbound).pos..inbound.pos]
      ensures old(inbound).caps == [] && length >= 0 ==>
                (r.Ok? <==> length <= |old(inbound).data| - old(inbound).pos || !NoCancel(cancels, old(asked)))
      ensures old(inbound).caps == [] && 0 <= length <= |old(inbound).data| - old(inbound).pos ==>
                r.Ok? && asked == old(asked) && inbound.pos == old(inbound).pos + length &&
                r.value == old(inbound).data[old(inbound).pos..inbound.pos]
    {
      if length < 0 {
        return Failure(Overflow);
      }
      ghost var s0 := inbound;
      ghost var a0 := asked;
      var read := 0;
      var filled: seq<byte> := [];
      var done := false;
      while !done
        invariant Valid() && output == old(output) && inbound.data == s0.data
        invariant s0.pos <= inbound.pos && read == inbound.pos - s0.pos <= length
        invariant filled == inbound.data[s0.pos..inbound.pos]
        invariant Consumed(cancels, a0, asked, done && read < length)
        invariant s0.caps == [] ==> inbound.caps == []
        invariant s0.caps == [] && length <= |s0.data| - s0.pos ==>
                    asked == a0 && (read == length || (inbound == s0 && !done))
        decreases |inbound.caps| + (|inbound.data| - inbound.pos) + (|cancels| - asked) + (if done then 0 else 1)
      {
        if read < length && Stuck(inbound, cancels, asked) {
          return Failure(Diverges);
        }
        var received := Read(length - read);
        read := read + |received|;
        filled := filled + received;
        if read < length {
          done := IsCancellationRequested();
        } else {
          done := true;
        }
      }
      r := Ok(filled + Zeros(length - read));
    }

    /** `ReadUnsignedByte`: one primitive read into a one-byte buffer. */
    method ReadUnsignedByte() returns (b: byte)
      requires Valid()
      modifies this
      ensures Valid() && inbound == Advance(old(inbound), 1)
      ensures b == ByteRead(old(inbound))
      ensures asked == old(asked) && output == old(output)
    {
      var got := Read(1);
      b := if |got| == 1 then got[0] else 0;
    }

    /** `ReadUnsignedByteAsync`: the same through `ReadAsync(byte[])`. */
    method ReadUnsignedByteAsync() returns (b: byte)
      requires Valid()
      modifies this
      ensures Valid() && inbound == Advance(old(inbound), 1)
      ensures b == ByteRead(old(inbound))
      ensures asked == old(asked) && output == old(output)
    {
      var got := Read(1);
      b := if |got| == 1 then got[0] else 0;
    }

    /** `ReadSignedByte`: the byte as an `sbyte`. */
    method ReadSignedByte() returns (v: int)
      requires Valid()
      modifies this
      ensures Valid() && inbound == Advance(old(inbound), 1)
      ensures -128 <= v < 128 && v == SignedByte(ByteRead(old(inbound)))
      ensures asked == old(asked) && output == old(output)
    {
      var b := ReadUnsignedByte();
      v := SignedByte(b);
    }

    /** `ReadByteAsync`: the same through `ReadUnsignedByteAsync`. */
    method ReadByteAsync() returns (v: int)
      requires Valid()
      modifies this
      ensures Valid() && inbound == Advance(old(inbound), 1)
      ensures -128 <= v < 128 && v == SignedByte(ByteRead(old(inbound)))
      ensures asked == old(asked) && output == old(output)
    {
      var b := ReadUnsignedByteAsync();
      v := SignedByte(b);
    }

    /** `ReadBoolAsync`: `true` exactly for the byte 1. */
    method ReadBoolAsync() returns (v: bool)
      requires Valid()
      modifies this
      ensures Valid() && inbound == Advance(old(inbound), 1)
      ensures v <==> ByteRead(old(inbound)) == 1
      ensures asked == old(asked) && output == old(output)
    {
      var b := ReadUnsignedByteAsync();
      v := BoolOf(b);
    }

    /** `ReadVarIntAsync`: the `do ... while` over one-byte reads, with the
        `int` shift and the sixth-byte check of the C# code. It gives what
        `DecodeVarInt` gives for the bytes six one-byte reads would yield,
        and stops after the bytes it used. */
    method ReadVarIntAsync() returns (r: Result<int, Fault>)
      requires Valid()
      modifies this
      ensures Valid() && asked == old(asked) && output == old(output)
      ensures var d := DecodeVarInt(Yields(old(inbound), 6));
              (d.Ok? ==> r == Ok(d.value.0) && inbound == AfterYields(old(inbound), d.value.1)) &&
              (d.Failure? ==> r == Failure(d.error) && inbound == AfterYields(old(inbound), 6))
    {
      ghost var s0 := inbound;
      ghost var d := DecodeVarInt(Yields(s0, 6));
      var numRead: nat := 0;
      var result: nat := 0;
      while true
        invariant Valid() && asked == old(asked) && output == old(output)
        invariant numRead <= 5 && inbound == AfterYields(s0, numRead)
        invariant d == VarIntLoop(Yields(inbound, 6 - numRead), numRead, result)
        decreases 5 - numRead
      {
        ghost var s := inbound;
        AfterYieldsNext(s0, numRead);
        var read := ReadUnsignedByteAsync();
        var value := read % 128;
        var next := BitOr(result, Shl(value, 7 * numRead % 32) % TWO32);
        VarIntReadStep(s, numRead, result, read, next);
        if numRead + 1 > 5 {
          return Failure(VarIntTooBig);
        }
        if read < 128 {
          return Ok(Signed32(next));
        }
        result := next;
        numRead := numRead + 1;
      }
    }

    /** `ReadVarLongAsync` as written: the same loop with up to ten bytes and
        the `int` shift of the C# code (see `VarLongLoop`). */
    method ReadVarLongAsync() returns (r: Result<int, Fault>)
      requires Valid()
      modifies this
      ensures Valid() && asked == old(asked) && output == old(output)
      ensures var d := DecodeVarLong(Yields(old(inbound), 11));
              (d.Ok? ==> r == Ok(d.value.0) && inbound == AfterYields(old(inbound), d.value.1)) &&
              (d.Failure? ==> r == Failure(d.error) && inbound == AfterYields(old(inbound), 11))
    {
      ghost var s0 := inbound;
      ghost var d := DecodeVarLong(Yields(s0, 11));
      var numRead: nat := 0;
      var result: nat := 0;
      while true
        invariant Valid() && asked == old(asked) && output == old(output)
        invariant numRead <= 10 && inbound == AfterYields(s0, numRead)
        invariant d == VarLongLoop(Yields(inbound, 11 - numRead), numRead, result)
        decreases 10 - numRead
      {
        ghost var s := inbound;
        AfterYieldsNext(s0, numRead);
        var read := ReadUnsignedByteAsync();
        var value := read % 128;
        var next := BitOr(result, SignExtend(Shl(value, 7 * numRead % 32) % TWO32));
        VarLongReadStep(s, numRead, result, read, next);
        if numRead + 1 > 10 {
          return Failure(VarLongTooBig);
        }
        if read < 128 {
          return Ok(Signed64(next));
        }
        result := next;
        numRead := numRead + 1;
      }
    }

    /** `ReadIntAsync`: four bytes in network order. */
    method ReadIntAsync() returns (r: Result<int, Fault>)
      requires Valid()
      modifies this
      ensures Valid() && output == old(output) && inbound.data == old(inbound).data
      ensures r.Failure? ==> r.error == Diverges && Stuck(inbound, cancels, asked)
      ensures r.Ok? ==> old(inbound).pos <= inbound.pos <= old(inbound).pos + 4 &&
                        r.value == Int32Of(Received(old(inbound), inbound, 4))
      ensures r.Ok? && NoCancel(cancels, old(asked)) ==>
                inbound.pos == old(inbound).pos + 4 &&
                r.value == Int32Of(old(inbound).data[old(inbound).pos..inbound.pos])
      ensures old(inbound).caps == [] ==>
                (r.Ok? <==> 4 <= |old(inbound).data| - old(inbound).pos || !NoCancel(cancels, old(asked)))
    {
      var bs :- ReadAsync(4);
      r := Ok(Int32Of(bs));
    }

    /** `ReadShortAsync`: two bytes in network order. */
    method ReadShortAsync() returns (r: Result<int, Fault>)
      requires Valid()
      modifies this
      ensures Valid() && output == old(output) && inbound.data == old(inbound).data
      ensures r.Failure? ==> r.error == Diverges && Stuck(inbound, cancels, asked)
      ensures r.Ok? ==> old(inbound).pos <= inbound.pos <= old(inbound).pos + 2 &&
                        r.value == Int16Of(Received(old(inbound), inbound, 2))
      ensures r.Ok? && NoCancel(cancels, old(asked)) ==>
                inbound.pos == old(inbound).pos + 2 &&
                r.value == Int16Of(old(inbound).data[old(inbound).pos..inbound.pos])
      ensures old(inbound).caps == [] ==>
                (r.Ok? <==> 2 <= |old(inbound).data| - old(inbound).pos || !NoCancel(cancels, old(asked)))
    {
      var bs :- ReadAsync(2);
      r := Ok(Int16Of(bs));
    }

    /** `ReadLongAsync`: eight bytes in network order. */
    method ReadLongAsync() returns (r: Result<int, Fault>)
      requires Valid()
      modifies this
      ensures Valid() && output == old(output) && inbound.data == old(inbound).data
      ensures r.Failure? ==> r.error == Diverges && Stuck(inbound, cancels, asked)
      ensures r.Ok? ==> old(inbound).pos <= inbound.pos <= old(inbound).pos + 8 &&
                        r.value == Int64Of(Received(old(inbound), inbound, 8))
      ensures r.Ok? && NoCancel(cancels, old(asked)) ==>
                inbound.pos == old(inbound).pos + 8 &&
                r.value == Int64Of(old(inbound).data[old(inbound).pos..inbound.pos])
      ensures old(inbound).caps == [] ==>
                (r.Ok? <==> 8 <= |old(inbound).data| - old(inbound).pos || !NoCancel(cancels, old(asked)))
    {
      var bs :- ReadAsync(8);
      r := Ok(Int64Of(bs));
    }

    /** `ReadStringAsync`: a VarInt length, then that many bytes (handed
        over undecoded). After a length that reads as `n >= 0`, the read
        fails only by waiting for ever; with no caps it succeeds exactly
        when `n` bytes follow or the token is cancelled, and when they
        follow it hands over exactly those bytes. */
    method ReadStringAsync() returns (r: Result<seq<byte>, Fault>)
      requires Valid()
      modifies this
      ensures Valid() && output == old(output) && inbound.data == old(inbound).data
      ensures var d := DecodeVarInt(Yields(old(inbound), 6));
              (d.Failure? ==> r == Failure(d.error)) &&
              (d.Ok? && d.value.0 < 0 ==> r == Failure(Overflow)) &&
              (r.Ok? ==> d.Ok? && |r.value| == d.value.0) &&
              (d.Ok? && d.value.0 >= 0 && r.Failure? ==> r.error == Diverges && Stuck(inbound, cancels, asked)) &&
              (r.Ok? && NoCancel(cancels, old(asked)) ==>
                 var p := AfterYields(old(inbound), d.value.1).pos;
                 inbound.pos == p + d.value.0 && r.value == inbound.data[p..inbound.pos])
      ensures var d := DecodeVarInt(Yields(old(inbound), 6));
              old(inbound).caps == [] && d.Ok? && d.value.0 >= 0 ==>
                var p := AfterYields(old(inbound), d.value.1).pos;
                (r.Ok? <==> d.value.0 <= |old(inbound).data| - p || !NoCancel(cancels, old(asked)))
      ensures var d := DecodeVarInt(Yields(old(inbound), 6));
              old(inbound).caps == [] && d.Ok? && d.value.0 >= 0 ==>
                var p := AfterYields(old(inbound), d.value.1).pos;
                (d.value.0 <= |old(inbound).data| - p ==>
                   r.Ok? && asked == old(asked) &&
                   inbound.pos == p + d.value.0 && r.value == inbound.data[p..inbound.pos])
    {
      ghost var s0 := inbound;
      ghost var d := DecodeVarInt(Yields(s0, 6));
      var n :- ReadVarIntAsync();
      if s0.caps == [] {
        AfterYieldsNoCaps(s0, d.value.1);
      }
      r := ReadAsync(n);
    }

    /** `WriteAsync(byte[] data)`: the bytes go to the wrapped stream. */
    method WriteAsync(data: seq<byte>)
      requires Valid()
      modifies this
      ensures Valid() && output == old(output) + data
      ensures inbound == old(inbound) && asked == old(asked)
    {
      output := output + data;
    }

    /** `Write(byte[] buffer, int offset, int count)`, handed to the
        wrapped stream, which refuses a negative offset or count and a range
        that runs past the end of the buffer. */
    method Write(buffer: seq<byte>, offset: int, count: int) returns (r: Result<(), Fault>)
      requires Valid()
      modifies this
      ensures Valid() && inbound == old(inbound) && asked == old(asked)
      ensures offset < 0 || count < 0 ==> r == Failure(OutOfRange)
      ensures 0 <= offset && 0 <= count && offset + count > |buffer| ==> r == Failure(BadArgument)
      ensures r.Ok? <==> 0 <= offset && 0 <= count && offset + count <= |buffer|
      ensures r.Ok? ==> output == old(output) + buffer[offset..offset + count]
      ensures r.Failure? ==> output == old(output)
    {
      if offset < 0 || count < 0 {
        return Failure(OutOfRange);
      }
      if offset + count > |buffer| {
        return Failure(BadArgument);
      }
      WriteAsync(buffer[offset..offset + count]);
      r := Ok(());
    }

    method WriteByteAsync(value: byte)
      requires Valid()
      modifies this
      ensures Valid() && output == old(output) + [value]
      ensures inbound == old(inbound) && asked == old(asked)
    {
      WriteAsync([value]);
    }

    /** `WriteRawVarInt32Async` as written: the LEB128 bytes of the
        `uint` go out, but the count it returns is always 1
        (`value & -128` is nonzero exactly when `value >= 128`). */
    method WriteRawVarInt32Async(value: nat) returns (written: int)
      requires Valid() && value < TWO32
      modifies this
      ensures Valid() && output == old(output) + Leb128(value) && written == 1
      ensures 1 <= |output| - |old(output)| <= 5
      ensures forall i :: |old(output)| <= i < |output| - 1 ==> output[i] >= 128
      ensures output[|output| - 1] < 128
      ensures inbound == old(inbound) && asked == old(asked)
    {
      written := 0;
      var v := value;
      while v >= 128
        invariant Valid() && inbound == old(inbound) && asked == old(asked)
        invariant old(output) + Leb128(value) == output + Leb128(v)
      {
        WriteByteAsync(v % 128 + 128);
        v := v / 128;
      }
      WriteByteAsync(v);
      written := written + 1;
      Leb128Bounds(value);
      AppendedLeb128(old(output), value, output);
    }

    /** The same loop counting every byte it writes: the count the callers
        of `WriteRawVarInt32Async` and `WriteVarIntAsync` expect. */
    method WriteLeb128Async(value: nat) returns (written: nat)
      requires Valid()
      modifies this
      ensures Valid() && output == old(output) + Leb128(value) && written == |Leb128(value)|
      ensures inbound == old(inbound) && asked == old(asked)
    {
      written := 0;
      var v := value;
      while v >= 128
        invariant Valid() && inbound == old(inbound) && asked == old(asked)
        invariant old(output) + Leb128(value) == output + Leb128(v)
        invariant written + |Leb128(v)| == |Leb128(value)|
      {
        WriteByteAsync(v % 128 + 128);
        written := written + 1;
        v := v / 128;
      }
      WriteByteAsync(v);
      written := written + 1;
    }

    /** `WriteVarIntAsync`: the `int` reinterpreted as a `uint`. */
    method WriteVarIntAsync(value: int) returns (written: int)
      requires Valid() && IsInt32(value)
      modifies this
      ensures Valid() && output == old(output) + Leb128(Unsigned32(value)) && written == 1
      ensures inbound == old(inbound) && asked == old(asked)
    {
      written := WriteRawVarInt32Async(Unsigned32(value));
    }

    /** `WriteVarLongAsync` as written: `value >>= 7` is an arithmetic
        shift, so a negative value never reaches 0; it sticks at -1 and
        the loop writes 0xFF for ever. The model stops there with
        `Diverges`, having written the bytes up to that point, every one
        with the continuation bit. */
    method WriteVarLongAsync(value: int) returns (r: Result<int, Fault>)
      requires Valid() && IsInt64(value)
      modifies this
      ensures Valid() && inbound == old(inbound) && asked == old(asked)
      ensures r == Failure(Diverges) <==> value < 0
      ensures value >= 0 ==> r == Ok(|Leb128(value)|) && output == old(output) + Leb128(value)
      ensures value >= 0 ==> 1 <= |Leb128(value)| <= 10
      ensures value < 0 ==> |output| > |old(output)| && output[..|old(output)|] == old(output)
      ensures value < 0 ==> forall i :: |old(output)| <= i < |output| ==> output[i] >= 128
    {
      var v := value;
      var write := 0;
      while true
        invariant Valid() && inbound == old(inbound) && asked == old(asked)
        invariant value >= 0 ==> v >= 0 && old(output) + Leb128(value) == output + Leb128(v)
        invariant value >= 0 ==> write + |Leb128(v)| == |Leb128(value)|
        invariant value < 0 ==> v < 0 && |output| == |old(output)| + write
        invariant value < 0 ==> output[..|old(output)|] == old(output)
        invariant value < 0 ==> forall i :: |old(output)| <= i < |output| ==> output[i] >= 128
        decreases (if v < 0 then -v else v) + (if write == 0 then 1 else 0)
      {
        if v == -1 && write > 0 {
          return Failure(Diverges);
        }
        ShiftSeven(v);
        var temp := v % 128;
        v := v / 128;
        if v != 0 {
          temp := temp + 128;
        }
        WriteByteAsync(temp);
        write := write + 1;
        if v == 0 {
          break;
        }
      }
      r := Ok(write);
      Leb128Bounds(value);
    }

    /** The writer the readers expect: the bits of the `long` as an
        unsigned `ulong`, 1 to 10 bytes, and their count. */
    method WriteVarLongUnsignedAsync(value: int) returns (written: nat)
      requires Valid() && IsInt64(value)
      modifies this
      ensures Valid() && output == old(output) + Leb128(Unsigned64(value))
      ensures written == |Leb128(Unsigned64(value))| && 1 <= written <= 10
      ensures inbound == old(inbound) && asked == old(asked)
    {
      WideVarLongRoundTrip(value, []);
      written := WriteLeb128Async(Unsigned64(value));
    }

    method WriteIntAsync(data: int)
      requires Valid() && IsInt32(data)
      modifies this
      ensures Valid() && output == old(output) + Int32Bytes(data)
      ensures inbound == old(inbound) && asked == old(asked)
    {
      WriteAsync(Int32Bytes(data));
    }

    method WriteShortAsync(data: int)
      requires Valid() && IsInt16(data)
      modifies this
      ensures Valid() && output == old(output) + Int16Bytes(data)
      ensures inbound == old(inbound) && asked == old(asked)
    {
      WriteAsync(Int16Bytes(data));
    }

    /** `WriteUShortAsync`: `BitConverter.GetBytes` with no swap, so the
        low byte goes first. */
    method WriteUShortAsync(data: nat)
      requires Valid() && data < TWO16
      modifies this
      ensures Valid() && output == old(output) + UShortBytes(data)
      ensures inbound == old(inbound) && asked == old(asked)
    {
      WriteAsync(UShortBytes(data));
    }

    method WriteLongAsync(data: int)
      requires Valid() && IsInt64(data)
      modifies this
      ensures Valid() && output == old(output) + Int64Bytes(data)
      ensures inbound == old(inbound) && asked == old(asked)
    {
      WriteAsync(Int64Bytes(data));
    }

    method WriteBoolAsync(data: bool)
      requires Valid()
      modifies this
      ensures Valid() && output == old(output) + [BoolByte(data)]
      ensures inbound == old(inbound) && asked == old(asked)
    {
      WriteByteAsync(BoolByte(data));
    }

    /** `WriteStringAsync`: the byte count as a VarInt, then the bytes (the
        UTF-8 encoding is not part of the model). */
    method WriteStringAsync(data: seq<byte>)
      requires Valid() && |data| < TWO31
      modifies this
      ensures Valid() && output == old(output) + Leb128(Unsigned32(|data|)) + data
      ensures inbound == old(inbound) && asked == old(asked)
    {
      var _ := WriteVarIntAsync(|data|);
      WriteAsync(data);
    }
  }

  /** The string round trip: what `WriteStringAsync(d)` writes, followed
      by anything, read back by `ReadStringAsync` from a stream that hands
      over everything at once is `d`, whatever the token answers. */
  method StringRoundTrip(d: seq<byte>, rest: seq<byte>, cancels: seq<bool>, isMemory: bool)
    returns (r: Result<seq<byte>, Fault>)
    requires |d| < TWO31
    ensures r == Ok(d)
  {
    var w := new RawStream.FromBuffer([], []);
    w.WriteStringAsync(d);
    var bytes := w.output + rest;
    assert bytes == Leb128(Unsigned32(|d|)) + (d + rest);
    var s := new RawStream(bytes, [], cancels, isMemory);
    assert s.inbound.Unread() == bytes;
    StringThroughStream(s.inbound, d, rest);
    r := s.ReadStringAsync();
  }

  /** A stream that hands over everything at once and starts with `w`:
      `n >= |w|` one-byte reads yield `w`, then what follows it padded with
      zeros, and the first `|w|` of them stop right after `w`. */
  lemma {:induction false} UncappedPrefix(s: Inbound, w: seq<byte>, rest: seq<byte>, n: nat)
    requires s.Valid() && s.caps == [] && s.Unread() == w + rest && |w| <= n
    ensures Yields(s, n) == w + Pad(rest, n - |w|)
    ensures AfterYields(s, |w|).Unread() == rest
  {
    YieldsUncapped(s, n);
    PadAppend(w, rest, n);
    AfterYieldsUncapped(s, |w|);
    assert s.data[s.pos + |w|..] == s.Unread()[|w|..];
  }

  /** A stream that hands over everything at once and starts with the
      bytes `WriteVarIntAsync(v)` wrote: the one-byte reads of
      `ReadVarIntAsync` give back `v` and stop right after those bytes. */
  lemma {:induction false} VarIntThroughStream(s: Inbound, v: int, rest: seq<byte>)
    requires s.Valid() && s.caps == [] && IsInt32(v)
    requires s.Unread() == Leb128(Unsigned32(v)) + rest
    ensures DecodeVarInt(Yields(s, 6)) == Ok((v, |Leb128(Unsigned32(v))|))
    ensures AfterYields(s, |Leb128(Unsigned32(v))|).Unread() == rest
  {
    var w := Leb128(Unsigned32(v));
    assert |w| <= 6 by {
      VarIntRoundTrip(v, []);
    }
    UncappedPrefix(s, w, rest, 6);
    VarIntRoundTrip(v, Pad(rest, 6 - |w|));
  }

  /** The same for `ReadVarLongAsync` as written, for the values it does
      read back (0 up to 2^31 - 1). */
  lemma {:induction false} VarLongThroughStream(s: Inbound, v: int, rest: seq<byte>)
    requires s.Valid() && s.caps == [] && 0 <= v < TWO31
    requires s.Unread() == Leb128(v) + rest
    ensures DecodeVarLong(Yields(s, 11)) == Ok((v, |Leb128(v)|))
    ensures AfterYields(s, |Leb128(v)|).Unread() == rest
  {
    var w := Leb128(v);
    assert |w| <= 11 by {
      VarLongRoundTrip(v, []);
    }
    UncappedPrefix(s, w, rest, 11);
    VarLongRoundTrip(v, Pad(rest, 11 - |w|));
  }

  /** A stream that starts with what `WriteStringAsync(d)` wrote: the
      length prefix reads back as `|d|`, and the `|d|` bytes after it are
      `d`. */
  lemma {:induction false} StringThroughStream(s: Inbound, d: seq<byte>, rest: seq<byte>)
    requires s.Valid() && s.caps == [] && |d| < TWO31
    requires s.Unread() == Leb128(Unsigned32(|d|)) + (d + rest)
    ensures DecodeVarInt(Yields(s, 6)) == Ok((|d|, |Leb128(Unsigned32(|d|))|))
    ensures var p := AfterYields(s, |Leb128(Unsigned32(|d|))|).pos;
            p + |d| <= |s.data| && s.data[p..p + |d|] == d
  {
    var w := Leb128(Unsigned32(|d|));
    VarIntThroughStream(s, |d|, d + rest);
    var t := AfterYields(s, |w|);
    assert s.data[t.pos..] == d + rest;
    SliceOfPrefix(s.data, t.pos, d, rest);
  }

  lemma {:induction false} SliceOfPrefix(data: seq<byte>, pos: nat, d: seq<byte>, rest: seq<byte>)
    requires pos <= |data| && data[pos..] == d + rest
    ensures pos + |d| <= |data| && data[pos..pos + |d|] == d
  {
    assert data[pos..pos + |d|] == data[pos..][..|d|];
  }

  /** One turn of the VarInt loop over one-byte reads: the byte read
      decides between the sixth-byte failure, another turn on the reads
      after it, and the end. */
  lemma VarIntReadStep(s: Inbound, k: nat, acc: nat, read: byte, next: nat)
    requires s.Valid() && k <= 5 && read == ByteRead(s)
    requires next == BitOr(acc, Shl(read % 128, 7 * k % 32) % TWO32)
    ensures k == 5 ==> VarIntLoop(Yields(s, 6 - k), k, acc) == Failure(VarIntTooBig)
    ensures k < 5 && read >= 128 ==>
              VarIntLoop(Yields(s, 6 - k), k, acc) == VarIntLoop(Yields(Advance(s, 1), 5 - k), k + 1, next)
    ensures k < 5 && read < 128 ==> VarIntLoop(Yields(s, 6 - k), k, acc) == Ok((Signed32(next), k + 1))
  {
    YieldsFirst(s, 6 - k);
    if k < 5 && read >= 128 {
      VarIntTurn(Yields(s, 6 - k), k, acc, read % 128, next);
    } else if k < 5 {
      VarIntLast(Yields(s, 6 - k), k, acc, read % 128, next);
    }
  }

  /** The same for the VarLong loop as written. */
  lemma VarLongReadStep(s: Inbound, k: nat, acc: nat, read: byte, next: nat)
    requires s.Valid() && k <= 10 && read == ByteRead(s)
    requires next == BitOr(acc, SignExtend(Shl(read % 128, 7 * k % 32) % TWO32))
    ensures k == 10 ==> VarLongLoop(Yields(s, 11 - k), k, acc) == Failure(VarLongTooBig)
    ensures k < 10 && read >= 128 ==>
              VarLongLoop(Yields(s, 11 - k), k, acc) == VarLongLoop(Yields(Advance(s, 1), 10 - k), k + 1, next)
    ensures k < 10 && read < 128 ==> VarLongLoop(Yields(s, 11 - k), k, acc) == Ok((Signed64(next), k + 1))
  {
    YieldsFirst(s, 11 - k);
    if k < 10 && read >= 128 {
      VarLongTurn(Yields(s, 11 - k), k, acc, read % 128, next);
    } else if k < 10 {
      VarLongLast(Yields(s, 11 - k), k, acc, read % 128, next);
    }
  }

  /** The continuation bits of LEB128 bytes appended to `before`. */
  lemma AppendedLeb128(before: seq<byte>, u: nat, after: seq<byte>)
    requires after == before + Leb128(u)
    ensures forall i :: |before| <= i < |after| - 1 ==> after[i] >= 128
    ensures after[|after| - 1] < 128
  {
    Leb128Bits(u);
    Leb128Bounds(u);
    forall i | |before| <= i < |after| - 1
      ensures after[i] >= 128
    {
      assert after[i] == Leb128(u)[i - |before|];
    }
  }

  /** `value & 127` and `value >>= 7` on a `long` are `% 128` and `/ 128`
      (Euclidean, so rounding down); a negative value stays negative and
      its magnitude shrinks until it is -1, which shifts to itself. */
  lemma ShiftSeven(v: int)
    ensures 0 <= v % 128 < 128
    ensures v < 128 && v >= 0 ==> v % 128 == v && v / 128 == 0
    ensures v >= 128 ==> 0 < v / 128 < v
    ensures v < 0 ==> v / 128 < 0
    ensures v < -1 ==> v < v / 128
    ensures v == -1 ==> v / 128 == -1
  {
  }
}
