/** What a `RawStream` sees of the stream it wraps (`BaseStream`): the bytes
    the peer has sent, how far they have been read, and how much each
    primitive read can hand over. A network stream delivers data in pieces,
    so a read may return fewer bytes than asked for even when more are on
    the way; `caps` lists, read by read, the most the next reads deliver.
    Once `caps` is used up every read delivers all it asks for that is
    there. A stream's `Read` returns 0 only at its end, so a read that
    delivers nothing while bytes remain (a cap of 0) is one that failed
    (`Fails`): the `catch` blocks of the `ReadAsync` overloads turn it
    into a read of 0 bytes, and the synchronous `Read(byte[], int, int)`
    lets the exception out. */
module Transport {
  import opened Wire

  function Min(a: int, b: int): int
  {
    if a <= b then a else b
  }

  datatype Inbound = Inbound(data: seq<byte>, pos: nat, caps: seq<nat>)
  {
    predicate Valid()
    {
      pos <= |data|
    }

    /** The bytes not read yet. */
    function Unread(): seq<byte>
      requires Valid()
    {
      data[pos..]
    }
  }

  /** How many bytes one primitive read of at most `count` bytes hands
      over. */
  function Deliver(s: Inbound, count: nat): (n: nat)
    requires s.Valid()
    ensures n <= count && s.pos + n <= |s.data|
    ensures s.caps == [] ==> n == Min(count, |s.data| - s.pos)
    ensures s.caps != [] ==> n == Min(Min(count, |s.data| - s.pos), s.caps[0])
  {
    var n := Min(count, |s.data| - s.pos);
    if s.caps == [] then n else Min(n, s.caps[0])
  }

  /** A primitive read of `count > 0` bytes that would hand over nothing
      although bytes remain: the stream's `Read` throws. */
  predicate Fails(s: Inbound, count: nat)
    requires s.Valid()
  {
    0 < count && s.pos < |s.data| && Deliver(s, count) == 0
  }

  /** The state after one primitive read of at most `count` bytes: the
      cursor moves past what was handed over and one cap is used. */
  function Advance(s: Inbound, count: nat): (t: Inbound)
    requires s.Valid()
    ensures t.Valid() && t.data == s.data && t.pos == s.pos + Deliver(s, count)
    ensures t.caps == if s.caps == [] then [] else s.caps[1..]
  {
    Inbound(s.data, s.pos + Deliver(s, count), if s.caps == [] then [] else s.caps[1..])
  }

  /** The byte a one-byte read (`ReadUnsignedByte`) yields: the next byte
      if the read handed one over, and otherwise the 0 the fresh buffer
      holds. */
  function ByteRead(s: Inbound): (b: byte)
    requires s.Valid()
    ensures Deliver(s, 1) == 1 ==> b == s.data[s.pos]
    ensures Deliver(s, 1) == 0 ==> b == 0
  {
    if Deliver(s, 1) == 1 then s.data[s.pos] else 0
  }

  /** The bytes `n` successive one-byte reads yield. */
  function Yields(s: Inbound, n: nat): (r: seq<byte>)
    requires s.Valid()
    ensures |r| == n
    decreases n
  {
    if n == 0 then [] else [ByteRead(s)] + Yields(Advance(s, 1), n - 1)
  }

  /** The state after `n` one-byte reads. */
  function AfterYields(s: Inbound, n: nat): (t: Inbound)
    requires s.Valid()
    ensures t.Valid() && t.data == s.data && s.pos <= t.pos <= s.pos + n
    decreases n
  {
    if n == 0 then s else AfterYields(Advance(s, 1), n - 1)
  }

  /** `n` zero bytes: the part of a `new byte[n]` nothing was read into. */
  function Zeros(n: nat): (r: seq<byte>)
    ensures |r| == n && forall i :: 0 <= i < n ==> r[i] == 0
  {
    seq(n, i => 0)
  }

  /** The first `n` bytes of `bs`, then zeros past its end. */
  function Pad(bs: seq<byte>, n: nat): (r: seq<byte>)
    ensures |r| == n
  {
    bs[..Min(n, |bs|)] + Zeros(n - Min(n, |bs|))
  }

  lemma PadAppend(a: seq<byte>, b: seq<byte>, n: nat)
    requires |a| <= n
    ensures Pad(a + b, n) == a + Pad(b, n - |a|)
  {
    forall k | 0 <= k < n
      ensures Pad(a + b, n)[k] == (a + Pad(b, n - |a|))[k]
    {
      PadIndex(a + b, n, k);
      if k >= |a| {
        PadIndex(b, n - |a|, k - |a|);
      }
    }
  }

  /** Byte `k` of `Pad(bs, n)`: the byte of `bs` there, or 0 past its end. */
  lemma PadIndex(bs: seq<byte>, n: nat, k: nat)
    requires k < n
    ensures Pad(bs, n)[k] == if k < |bs| then bs[k] else 0
  {
  }

  /** Padding a sequence that is long enough only cuts it. */
  lemma PadFull(bs: seq<byte>, n: nat)
    requires n <= |bs|
    ensures Pad(bs, n) == bs[..n]
  {
    forall k | 0 <= k < n
      ensures Pad(bs, n)[k] == bs[k]
    {
      PadIndex(bs, n, k);
    }
  }

  /** A window of a padded buffer is the padding of what is left of `bs`
      from the window's start. */
  lemma PadWindow(bs: seq<byte>, n: nat, a: nat, b: nat)
    requires a + b <= n
    ensures Pad(bs, n)[a..a + b] == Pad(bs[Min(a, |bs|)..], b)
  {
    var c := bs[Min(a, |bs|)..];
    forall j | 0 <= j < b
      ensures Pad(bs, n)[a..a + b][j] == Pad(c, b)[j]
    {
      PadIndex(bs, n, a + j);
      PadIndex(c, b, j);
      if a + j < |bs| {
        assert c[j] == bs[a + j];
      }
    }
  }

  /** Within the unread bytes, the padded buffer holds the data. */
  lemma PadSlice(s: Inbound, n: nat, a: nat, b: nat)
    requires s.Valid() && a <= b <= n <= |s.data| - s.pos
    ensures Pad(s.Unread(), n)[a..b] == s.data[s.pos + a..s.pos + b]
  {
    PadFull(s.Unread(), n);
  }

  /** With no caps left, one read of `length` bytes into a fresh buffer
      holds the unread bytes and then zeros, and the cursor stops at the
      end. */
  lemma ReceivedUncapped(s: Inbound, length: nat)
    requires s.Valid() && s.caps == []
    ensures Advance(s, length).pos == s.pos + Min(length, |s.data| - s.pos)
    ensures Received(s, Advance(s, length), length) == Pad(s.Unread(), length)
  {
    var t := Advance(s, length);
    forall k | 0 <= k < length
      ensures Received(s, t, length)[k] == Pad(s.Unread(), length)[k]
    {
      PadIndex(s.Unread(), length, k);
    }
  }

  /** With no caps left, a one-byte read yields the first unread byte, or
      0 at the end, and moves past it. */
  lemma ByteReadUncapped(s: Inbound)
    requires s.Valid() && s.caps == []
    ensures ByteRead(s) == Head(s.Unread())
    ensures Advance(s, 1).Unread() == Tail(s.Unread()) && Advance(s, 1).caps == []
    ensures Advance(s, 1).pos == s.pos + Min(1, |s.data| - s.pos)
  {
    if s.pos < |s.data| {
      assert s.Unread()[1..] == s.data[s.pos + 1..];
    }
  }

  /** With no caps left the one-byte reads yield the unread bytes in
      order, then zeros. */
  lemma {:induction false} YieldsUncapped(s: Inbound, n: nat)
    requires s.Valid() && s.caps == []
    ensures Yields(s, n) == Pad(s.Unread(), n)
    decreases n
  {
    if n > 0 {
      ByteReadUncapped(s);
      YieldsUncapped(Advance(s, 1), n - 1);
    }
  }

  /** ... and the cursor stops at the end. */
  lemma {:induction false} AfterYieldsUncapped(s: Inbound, n: nat)
    requires s.Valid() && s.caps == []
    ensures AfterYields(s, n).pos == s.pos + Min(n, |s.data| - s.pos)
    ensures AfterYields(s, n).caps == []
    decreases n
  {
    if n > 0 {
      ByteReadUncapped(s);
      AfterYieldsUncapped(Advance(s, 1), n - 1);
    }
  }

  /** With no caps left, none come back. */
  lemma {:induction false} AfterYieldsNoCaps(s: Inbound, n: nat)
    requires s.Valid() && s.caps == []
    ensures AfterYields(s, n).caps == []
    decreases n
  {
    if n > 0 {
      AfterYieldsNoCaps(Advance(s, 1), n - 1);
    }
  }

  /** The first of `n` one-byte reads, and the ones after it. */
  lemma YieldsFirst(s: Inbound, n: nat)
    requires s.Valid() && n > 0
    ensures Head(Yields(s, n)) == ByteRead(s)
    ensures Tail(Yields(s, n)) == Yields(Advance(s, 1), n - 1)
  {
    assert Yields(s, n) == [ByteRead(s)] + Yields(Advance(s, 1), n - 1);
  }

  /** One more one-byte read after `n` of them. */
  lemma {:induction false} AfterYieldsNext(s: Inbound, n: nat)
    requires s.Valid()
    ensures AfterYields(s, n + 1) == Advance(AfterYields(s, n), 1)
    decreases n
  {
    if n > 0 {
      AfterYieldsNext(Advance(s, 1), n - 1);
    }
  }

  /** The bytes of a buffer of `length` filled from the cursor of `s` up to
      the cursor of `t`, the rest left at 0. */
  function Received(s: Inbound, t: Inbound, length: nat): (buf: seq<byte>)
    requires s.Valid() && t.Valid() && t.data == s.data && s.pos <= t.pos <= s.pos + length
    ensures |buf| == length
  {
    s.data[s.pos..t.pos] + Zeros(length - (t.pos - s.pos))
  }

  /** The cancellation answers `cs[a0..a1]` were asked for: every one was
      "no", except the last one when `lastYes` holds. */
  predicate Consumed(cs: seq<bool>, a0: nat, a1: nat, lastYes: bool)
  {
    a0 <= a1 <= |cs| &&
    (forall i :: a0 <= i < a1 && !(lastYes && i == a1 - 1) ==> !cs[i]) &&
    (lastYes ==> a0 < a1 && cs[a1 - 1])
  }

  /** No answer from `from` on is "yes". */
  predicate NoCancel(cs: seq<bool>, from: nat)
  {
    forall i :: from <= i < |cs| ==> !cs[i]
  }

  /** Nothing left to read, no cap to use, no cancellation to come: a read
      loop that needs more waits forever. */
  predicate Stuck(s: Inbound, cs: seq<bool>, asked: nat)
  {
    s.pos == |s.data| && s.caps == [] && asked == |cs|
  }
}
