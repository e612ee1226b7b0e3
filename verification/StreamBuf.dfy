/** include/asio/basic_streambuf.hpp: a byte queue in one contiguous, growing buffer. Pointers are offsets
    from the start of the buffer. */
module StreamBuffers {

  type Byte = bv8

  /** `buffer_delta`. */
  const BUFFER_DELTA: nat := 128

  /** The first value a 32-bit int cannot hold. */
  const INT_LIMIT: nat := 0x8000_0000

  /** `static_cast<int>(n)`: the low 32 bits, as two's complement. */
  function ToInt(n: nat): int {
    var low := n % (2 * INT_LIMIT);
    if low < INT_LIMIT then low else low - 2 * INT_LIMIT
  }

  /** The cast passed to pbump and gbump is the 32-bit number congruent to the count modulo 2^32, and the count
      itself exactly for counts below 2^31. */
  lemma CastExact(n: nat)
    ensures -0x8000_0000 <= ToInt(n) < 0x8000_0000 && (n - ToInt(n)) % 0x1_0000_0000 == 0
    ensures ToInt(n) == n <==> n < 0x8000_0000
  {
  }

  lemma CastOfLimit()
    ensures ToInt(0x8000_0000) == 0 - 0x8000_0000
  {
  }

  function Min(a: nat, b: nat): nat { if a <= b then a else b }

  function Max(a: nat, b: nat): nat { if a >= b then a else b }

  /** What becomes of the queue when its bytes are shifted down by g while the pointers stay: its tail comes
      early, and the last bytes are still in place. */
  function Shifted(queue: seq<Byte>, g: nat): (shifted: seq<Byte>)
    ensures |shifted| == |queue|
  {
    if g <= |queue| then queue[g..] + queue[|queue| - g..] else queue
  }

  /** A refusal leaves the queue as it was exactly when nothing had been consumed, when the two places do not
      overlap, or when the bytes happen to repeat with period g. */
  lemma ShiftedIsHarmless(queue: seq<Byte>, g: nat)
    ensures Shifted(queue, g) == queue <==>
            g == 0 || g >= |queue| || forall j :: g <= j < |queue| ==> queue[j] == queue[j - g]
  {
  }

  /** The memory move behind it. */
  lemma ShiftedInPlace(was: seq<Byte>, now: seq<Byte>, from: nat, count: nat)
    requires from + count <= |was| == |now|
    requires now[..count] == was[from..from + count] && now[count..] == was[count..]
    ensures now[from..from + count] == Shifted(was[from..from + count], from)
  {
    var slice := now[from..from + count];
    forall j | 0 <= j < count
      ensures slice[j] == Shifted(was[from..from + count], from)[j]
    {
      if from + j < count {
        assert slice[j] == now[..count][from + j];
      } else {
        assert slice[j] == now[count..][from + j - count];
      }
    }
  }

  class StreamBuf {
    const maxSize: nat
    var buffer: array<Byte>
    var eback: int
    var gptr: int
    var egptr: int
    var pptr: int
    var epptr: int

    ghost predicate Valid()
      reads this
    {
      && 0 == eback <= gptr <= egptr <= pptr <= epptr <= maxSize
      && buffer.Length == Max(epptr, 1)
    }

    /** The input sequence: written and not yet consumed. */
    ghost function Readable(): seq<Byte>
      requires Valid()
      reads this, buffer
    {
      buffer[gptr..pptr]
    }

    constructor (maximumSize: nat)
      ensures Valid() && Readable() == [] && maxSize == maximumSize && fresh(buffer)
      ensures gptr == 0 && epptr - pptr == if maximumSize <= 128 then maximumSize else 128
    {
      var pend := Min(maximumSize, BUFFER_DELTA);
      maxSize := maximumSize;
      buffer := new Byte[Max(pend, 1)](_ => 0);
      eback, gptr, egptr := 0, 0, 0;
      pptr, epptr := 0, pend;
    }

    /** `size()`: the length of the input sequence, never above the maximum. */
    function Size(): (n: nat)
      requires Valid()
      reads this, buffer
      ensures n == |Readable()| <= maxSize
    {
      pptr - gptr
    }

    /** `std::memmove` to the start of the buffer. */
    method ShiftDown(from: nat, count: nat)
      requires from + count <= buffer.Length
      modifies buffer
      ensures buffer[..count] == old(buffer[from..from + count])
      ensures buffer[count..] == old(buffer[count..])
    {
      var i := 0;
      while i < count
        invariant i <= count
        invariant forall j :: 0 <= j < i ==> buffer[j] == old(buffer[from + j])
        invariant forall j :: i <= j < buffer.Length ==> buffer[j] == old(buffer[j])
      {
        buffer[i] := buffer[i + from];
        i := i + 1;
      }
    }

    /** `buffer_.resize`: the bytes already there stay, new ones are zero. */
    method Grow(size: nat)
      requires buffer.Length <= size
      modifies this`buffer
      ensures fresh(buffer) && buffer.Length == size
      ensures buffer[..old(buffer.Length)] == old(buffer[..])
      ensures forall i :: old(buffer.Length) <= i < size ==> buffer[i] == 0
    {
      var was := buffer;
      var grown := new Byte[size](_ => 0);
      var i := 0;
      while i < was.Length
        invariant i <= was.Length
        invariant grown[..i] == was[..i]
        invariant forall j :: i <= j < size ==> grown[j] == 0
      {
        grown[i] := was[i];
        i := i + 1;
      }
      buffer := grown;
    }

    /** Room for n more bytes, by compaction and growth; false stands for the thrown length_error, before
        which the bytes may have been shifted, but no pointer moved. */
    method Reserve(n: nat) returns (ok: bool)
      requires Valid()
      modifies this, buffer
      ensures ok <==> |old(Readable())| + n <= maxSize
      ensures Valid() && Readable() == if ok then old(Readable()) else Shifted(old(Readable()), old(gptr))
      ensures ok ==> n <= epptr - pptr && gptr == if n <= old(epptr - pptr) then old(gptr) else 0
      ensures ok ==> egptr == if n <= old(epptr - pptr) then old(egptr) else pptr
      ensures ok ==> epptr == if n <= old(epptr - pptr) || pptr + n <= old(epptr) then old(epptr) else pptr + n
      ensures !ok ==> gptr == old(gptr) && egptr == old(egptr) && pptr == old(pptr) && epptr == old(epptr)
      ensures buffer == old(buffer) || fresh(buffer)
    {
      hide Shifted;
      var gnext: nat := gptr;
      var pnext: nat := pptr;
      var pend: nat := epptr;
      if n <= pend - pnext {
        return true;
      }
      ghost var was, queued := buffer[..], Readable();
      if gnext > 0 {
        pnext := pnext - gnext;
        ShiftDown(gnext, pnext);
      }
      ShiftedInPlace(was, buffer[..], gnext, pnext);
      assert buffer[..pnext] == queued;
      if n > pend - pnext {
        if n <= maxSize && pnext <= maxSize - n {
          pend := pnext + n;
          Grow(Max(pend, 1));
        } else {
          return false;
        }
      }
      eback, gptr, egptr := 0, 0, pnext;
      pptr, epptr := pnext, pend;
      ok := true;
    }

    /** n writable bytes at the put pointer, or the same refusal. */
    method Prepare(n: nat) returns (ok: bool, start: nat)
      requires Valid()
      modifies this, buffer
      ensures ok <==> |old(Readable())| + n <= maxSize
      ensures Valid() && Readable() == if ok then old(Readable()) else Shifted(old(Readable()), old(gptr))
      ensures ok ==> start == pptr && start + n <= buffer.Length && start + n <= epptr
      ensures ok ==> gptr == if n <= old(epptr - pptr) then old(gptr) else 0
      ensures ok ==> epptr == if n <= old(epptr - pptr) || pptr + n <= old(epptr) then old(epptr) else pptr + n
      ensures !ok ==> gptr == old(gptr) && egptr == old(egptr) && pptr == old(pptr) && epptr == old(epptr)
      ensures buffer == old(buffer) || fresh(buffer)
    {
      start := 0;
      ok := Reserve(n);
      if ok {
        start := pptr;
      }
    }

    /** Appends the next written bytes, as many as there are up to n. For counts of 2^31 and more the int
        cast moves the put pointer by something else. */
    method Commit(n: nat)
      requires Valid()
      modifies `pptr, `eback, `gptr, `egptr
      ensures pptr == old(pptr) + ToInt(Min(n, old(epptr) - old(pptr)))
      ensures egptr == pptr && gptr == old(gptr) && eback == old(eback)
      ensures pptr == old(pptr) + Min(n, epptr - old(pptr)) <==> Min(n, epptr - old(pptr)) < 0x8000_0000
      ensures Valid() <==> gptr <= old(pptr) + ToInt(Min(n, old(epptr) - old(pptr)))
      ensures var count := Min(n, old(epptr) - old(pptr));
        count < 0x8000_0000 ==>
          && Valid()
          && old(pptr) + count <= buffer.Length
          && Readable() == old(Readable()) + buffer[old(pptr)..old(pptr) + count]
    {
      var count := Min(n, epptr - pptr);
      CastExact(count);
      pptr := pptr + ToInt(count);
      egptr := pptr;
    }

    /** Drops the first n readable bytes, or all when there are fewer. */
    method Consume(n: nat)
      requires Valid()
      modifies `eback, `gptr, `egptr
      ensures gptr == old(gptr) + ToInt(Min(n, |old(Readable())|))
      ensures gptr == old(gptr) + Min(n, |old(Readable())|) <==> Min(n, |old(Readable())|) < 0x8000_0000
      ensures egptr == pptr && pptr == old(pptr)
      ensures Valid() <==> 0 <= old(gptr) + ToInt(Min(n, |old(Readable())|))
      ensures var count := Min(n, |old(Readable())|);
        count < 0x8000_0000 ==> Valid() && Readable() == old(Readable())[count..]
    {
      if egptr < pptr {
        eback, egptr := 0, pptr;
      }
      var count := n;
      if gptr + n > pptr {
        count := pptr - gptr;
      }
      CastExact(count);
      gptr := gptr + ToInt(count);
    }

    /** The next readable byte, without removing it; false at the end. */
    method Underflow() returns (ok: bool, c: Byte)
      requires Valid()
      modifies `eback, `egptr
      ensures Valid() && Readable() == old(Readable())
      ensures ok <==> Readable() != []
      ensures ok ==> c == Readable()[0] && egptr == pptr
      ensures !ok ==> egptr == old(egptr)
    {
      if gptr < pptr {
        eback, egptr := 0, pptr;
        return true, buffer[gptr];
      }
      return false, 0;
    }

    /** Writes at the put pointer and advances it. */
    method Put(c: Byte)
      requires Valid() && pptr < epptr
      modifies `pptr, buffer
      ensures Valid() && Readable() == old(Readable()) + [c] && pptr == old(pptr) + 1
    {
      buffer[pptr] := c;
      pptr := pptr + 1;
    }

    /** Appends one byte, growing by up to 128; fails exactly when the maximum is reached, and then changes
        nothing. */
    method Overflow(c: Byte) returns (ok: bool)
      requires Valid()
      modifies this, buffer
      ensures ok <==> |old(Readable())| < maxSize
      ensures Valid() && Readable() == if ok then old(Readable()) + [c] else old(Readable())
      ensures var size := |old(Readable())|;
        if old(pptr) < old(epptr) then gptr == old(gptr) && epptr == old(epptr)
        else if !ok then gptr == old(gptr) && pptr == old(pptr) && epptr == old(epptr)
        else
          var room := if maxSize - size < 128 then maxSize - size else 128;
          gptr == 0 && epptr == if size + room <= old(epptr) then old(epptr) else size + room
    {
      if pptr == epptr {
        var bufferSize: nat := pptr - gptr;
        if bufferSize < maxSize && maxSize - bufferSize < BUFFER_DELTA {
          ok := Reserve(maxSize - bufferSize);
        } else {
          ok := Reserve(BUFFER_DELTA);
        }
        if !ok {
          return;
        }
      }
      Put(c);
      ok := true;
    }

    /** The documented use: prepare, fill, commit. It appends exactly the given bytes, and is refused exactly
        when they do not fit. */
    method Append(bytes: seq<Byte>) returns (ok: bool)
      requires Valid() && |bytes| < 0x8000_0000
      modifies this, buffer
      ensures ok <==> |old(Readable())| + |bytes| <= maxSize
      ensures Valid() && Readable() == if ok then old(Readable()) + bytes else Shifted(old(Readable()), old(gptr))
      ensures ok ==> gptr == if |bytes| <= old(epptr - pptr) then old(gptr) else 0
      ensures !ok ==> gptr == old(gptr)
      ensures buffer == old(buffer) || fresh(buffer)
    {
      hide Shifted, ToInt;
      CastExact(|bytes|);
      var start;
      ok, start := Prepare(|bytes|);
      if !ok {
        return;
      }
      FillIn(start, bytes);
      Commit(|bytes|);
    }

    /** The caller fills the prepared bytes. */
    method FillIn(start: nat, bytes: seq<Byte>)
      requires Valid() && pptr <= start && start + |bytes| <= buffer.Length
      modifies buffer
      ensures Valid() && Readable() == old(Readable())
      ensures buffer[start..start + |bytes|] == bytes
    {
      var i := 0;
      while i < |bytes|
        invariant i <= |bytes|
        invariant Readable() == old(Readable())
        invariant buffer[start..start + i] == bytes[..i]
      {
        buffer[start + i] := bytes[i];
        i := i + 1;
      }
    }
  }
  /** A count of 2^31, prepared and committed, moves the put pointer back by as much, below the buffer. */
  method CommitBackwards() returns (buf: StreamBuf)
    ensures fresh(buf) && !buf.Valid() && buf.pptr + 0x8000_0000 == 0
  {
    hide Shifted, ToInt;
    CastOfLimit();
    buf := new StreamBuf(0x1_0000_0000);
    var ok, start := buf.Prepare(0x8000_0000);
    assert buf.Readable() == [] && buf.pptr == 0;
    buf.Commit(0x8000_0000);
  }

  /** Consuming 2^31 bytes, appended in two parts, moves the get pointer below the buffer. */
  method ConsumeBackwards() returns (buf: StreamBuf)
    ensures fresh(buf) && !buf.Valid() && buf.gptr + 0x8000_0000 == 0
  {
    hide Shifted, ToInt;
    CastOfLimit();
    CastExact(0x8000_0000 - 1);
    CastExact(1);
    buf := new StreamBuf(0x8000_0000);
    var ok, start := buf.Prepare(0x8000_0000);
    buf.Commit(0x8000_0000 - 1);
    buf.Commit(1);
    assert |buf.Readable()| == 0x8000_0000;
    buf.Consume(0x8000_0000);
  }

  /** A refusal can change the readable bytes. */
  method RefusalShifts() returns (buf: StreamBuf)
    ensures fresh(buf) && buf.Valid() && buf.Readable() == [2, 2]
  {
    buf := new StreamBuf(3);
    var ok := buf.Append([0, 1, 2]);
    buf.Consume(1);
    assert buf.Readable() == [1, 2] && buf.gptr == 1;
    ok := buf.Append([3, 4]);
  }
}
