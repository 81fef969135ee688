/**
  Buffer access to PCI Express configuration space: runs of naturally aligned
  8, 16 and 32-bit cycles that amount to a byte-by-byte copy.
*/
module PciBuffer {
  import opened Efi

  datatype Access = Access(address: nat, width: nat)

  predicate NaturallyAligned(a: Access) {
    a.width == 1 || (a.width == 2 && a.address % 2 == 0) || (a.width == 4 && a.address % 4 == 0)
  }

  /** Bit 1 of an even address decides between 16 and 32-bit alignment. */
  lemma EvenAddress(a: nat)
    requires a % 2 == 0
    ensures a / 2 % 2 == 0 ==> a % 4 == 0
    ensures a / 2 % 2 != 0 ==> (a + 2) % 4 == 0
  {
  }

  lemma WordIsEven(a: nat)
    requires a % 4 == 0
    ensures NaturallyAligned(Access(a, 2))
  {
  }

  lemma NextWord(a: nat)
    requires a % 4 == 0
    ensures (a + 4) % 4 == 0 && NaturallyAligned(Access(a, 4))
  {
  }

  /** The cycles touch the bytes from `start` to `end` once each, in order. */
  predicate Sweeps(log: seq<Access>, start: nat, end: nat)
    decreases |log|
  {
    if log == [] then start == end
    else
      var last := log[|log| - 1];
      && NaturallyAligned(last)
      && last.address + last.width == end
      && start <= last.address
      && Sweeps(log[..|log| - 1], start, last.address)
  }

  lemma SweepsOneMore(log: seq<Access>, start: nat, mid: nat, a: Access)
    requires Sweeps(log, start, mid) && start <= mid && a.address == mid && NaturallyAligned(a)
    ensures Sweeps(log + [a], start, mid + a.width)
  {
    assert (log + [a])[..|log|] == log;
  }

  /** Each byte of the range belongs to exactly one cycle, and no cycle leaves the range. */
  lemma {:induction false} SweepTouchesOnce(log: seq<Access>, start: nat, end: nat, i: nat, j: nat)
    requires Sweeps(log, start, end) && i < |log|
    ensures start <= log[i].address && log[i].address + log[i].width <= end
    ensures i < j < |log| ==> log[i].address + log[i].width <= log[j].address
    decreases |log|
  {
    var n := |log| - 1;
    var rest := log[..n];
    if i < n {
      SweepTouchesOnce(rest, start, log[n].address, i, j);
      assert rest[i] == log[i] && (j < n ==> rest[j] == log[j]);
    }
  }

  lemma {:induction false} SweepMissesNothing(log: seq<Access>, start: nat, end: nat, byte: nat) returns (i: nat)
    requires Sweeps(log, start, end) && start <= byte < end
    ensures i < |log| && log[i].address <= byte < log[i].address + log[i].width
    decreases |log|
  {
    var n := |log| - 1;
    if byte >= log[n].address {
      i := n;
    } else {
      i := SweepMissesNothing(log[..n], start, log[n].address, byte);
    }
  }

  /** ReadUnaligned16() and ReadUnaligned32(), or a plain byte. */
  method Gather(buffer: array<Byte>, offset: nat, width: nat) returns (value: nat)
    requires width == 1 || width == 2 || width == 4
    requires offset + width <= buffer.Length
    ensures forall k :: 0 <= k < width ==> ByteOf(value, k) == buffer[offset + k]
  {
    if width == 1 {
      value := buffer[offset];
    } else if width == 2 {
      value := Word16(buffer[offset], buffer[offset + 1]);
      BytesOf16(buffer[offset], buffer[offset + 1]);
    } else {
      value := Word32(buffer[offset], buffer[offset + 1], buffer[offset + 2], buffer[offset + 3]);
      BytesOf32(buffer[offset], buffer[offset + 1], buffer[offset + 2], buffer[offset + 3]);
    }
  }

  /** What ASSERT() demands of the address and the size. */
  predicate InOneFunction(start: nat, size: nat) {
    start <= 0x0FFF_FFFF && start % 0x1000 + size <= 0x1000
  }

  class ConfigSpace {
    var mem: nat -> Byte
    ghost var log: seq<Access>

    constructor (mem: nat -> Byte)
      ensures this.mem == mem && log == []
    {
      this.mem := mem;
      log := [];
    }

    method Read(address: nat, width: nat) returns (value: nat)
      requires width == 1 || width == 2 || width == 4
      modifies this`log
      ensures log == old(log) + [Access(address, width)]
      ensures forall k :: 0 <= k < width ==> ByteOf(value, k) == mem(address + k)
    {
      log := log + [Access(address, width)];
      if width == 1 {
        value := mem(address);
      } else if width == 2 {
        value := Word16(mem(address), mem(address + 1));
        BytesOf16(mem(address), mem(address + 1));
      } else {
        value := Word32(mem(address), mem(address + 1), mem(address + 2), mem(address + 3));
        BytesOf32(mem(address), mem(address + 1), mem(address + 2), mem(address + 3));
      }
    }

    method Write(address: nat, width: nat, value: nat)
      requires width == 1 || width == 2 || width == 4
      modifies this
      ensures log == old(log) + [Access(address, width)]
      ensures forall a: nat :: mem(a) == if address <= a < address + width then ByteOf(value, a - address) else old(mem)(a)
    {
      log := log + [Access(address, width)];
      var was := mem;
      mem := (a: nat) => if address <= a < address + width && a - address < 4 then ByteOf(value, a - address) else was(a);
    }

    /** One read cycle, stored unaligned at `offset` of the buffer. */
    method ReadInto(address: nat, width: nat, buffer: array<Byte>, offset: nat)
      requires width == 1 || width == 2 || width == 4
      requires offset + width <= buffer.Length
      modifies this`log, buffer
      ensures log == old(log) + [Access(address, width)]
      ensures forall i :: 0 <= i < buffer.Length ==>
                buffer[i] == if offset <= i < offset + width then mem(address + (i - offset)) else old(buffer[i])
    {
      var value := Read(address, width);
      forall k | 0 <= k < width {
        buffer[offset + k] := ByteOf(value, k);
      }
    }

    ghost predicate ReadSoFar(buffer: array<Byte>, was: seq<Byte>, start: nat, done: nat, logWas: seq<Access>)
      reads this, buffer
      requires |was| == buffer.Length
    {
      && done <= buffer.Length
      && (forall i :: 0 <= i < buffer.Length ==> buffer[i] == if i < done then mem(start + i) else was[i])
      && logWas <= log
      && Sweeps(log[|logWas|..], start, start + done)
    }

    method ReadMore(buffer: array<Byte>, start: nat, done: nat, width: nat, ghost was: seq<Byte>, ghost logWas: seq<Access>)
      requires |was| == buffer.Length && ReadSoFar(buffer, was, start, done, logWas)
      requires NaturallyAligned(Access(start + done, width)) && done + width <= buffer.Length
      modifies this`log, buffer
      ensures ReadSoFar(buffer, was, start, done + width, logWas)
    {
      ghost var before := log;
      ReadInto(start + done, width, buffer, done);
      SweepsOneMore(before[|logWas|..], start, start + done, Access(start + done, width));
      assert log[|logWas|..] == before[|logWas|..] + [Access(start + done, width)];
    }

    /** A byte and a word at most, to reach 32-bit alignment. */
    method ReadHead(buffer: array<Byte>, start: nat, size: nat, ghost was: seq<Byte>, ghost logWas: seq<Access>) returns (done: nat)
      requires |was| == buffer.Length && ReadSoFar(buffer, was, start, 0, logWas) && 0 < size <= buffer.Length
      modifies this`log, buffer
      ensures done <= size && ReadSoFar(buffer, was, start, done, logWas)
      ensures (start + done) % 4 == 0 || size - done < 2
    {
      done := 0;
      if start % 2 != 0 {
        ReadMore(buffer, start, done, 1, was, logWas);
        done := done + 1;
      }
      EvenAddress(start + done);
      if size - done >= 2 && (start + done) / 2 % 2 != 0 {
        ReadMore(buffer, start, done, 2, was, logWas);
        done := done + 2;
      }
    }

    /** As many 32-bit cycles as possible. */
    method ReadWords(buffer: array<Byte>, start: nat, size: nat, ghost was: seq<Byte>, ghost logWas: seq<Access>, from: nat) returns (done: nat)
      requires |was| == buffer.Length && ReadSoFar(buffer, was, start, from, logWas) && from <= size <= buffer.Length
      requires (start + from) % 4 == 0 || size - from < 2
      modifies this`log, buffer
      ensures from <= done <= size && ReadSoFar(buffer, was, start, done, logWas)
      ensures size - done < 4 && ((start + done) % 4 == 0 || size - done < 2)
    {
      done := from;
      while size - done >= 4
        invariant from <= done <= size
        invariant ReadSoFar(buffer, was, start, done, logWas)
        invariant (start + done) % 4 == 0 || size - done < 2
      {
        NextWord(start + done);
        ReadMore(buffer, start, done, 4, was, logWas);
        done := done + 4;
      }
    }

    /** The last word and the last byte, if any. */
    method ReadTail(buffer: array<Byte>, start: nat, size: nat, ghost was: seq<Byte>, ghost logWas: seq<Access>, from: nat)
      requires |was| == buffer.Length && ReadSoFar(buffer, was, start, from, logWas) && from <= size <= buffer.Length
      requires size - from < 4 && ((start + from) % 4 == 0 || size - from < 2)
      modifies this`log, buffer
      ensures ReadSoFar(buffer, was, start, size, logWas)
    {
      var done := from;
      if size - done >= 2 {
        WordIsEven(start + done);
        ReadMore(buffer, start, done, 2, was, logWas);
        done := done + 2;
      }
      if size - done >= 1 {
        ReadMore(buffer, start, done, 1, was, logWas);
      }
    }

    /** PciExpressReadBuffer(). */
    method ReadBuffer(startAddress: nat, size: nat, buffer: array<Byte>) returns (r: nat)
      requires InOneFunction(startAddress, size) && size <= buffer.Length
      modifies this`log, buffer
      ensures r == size
      ensures forall i :: 0 <= i < buffer.Length ==> buffer[i] == if i < size then mem(startAddress + i) else old(buffer[i])
      ensures old(log) <= log && Sweeps(log[|old(log)|..], startAddress, startAddress + size)
    {
      ghost var was, logWas := buffer[..], log;
      if size == 0 {
        return size;
      }
      var done := ReadHead(buffer, startAddress, size, was, logWas);
      done := ReadWords(buffer, startAddress, size, was, logWas, done);
      ReadTail(buffer, startAddress, size, was, logWas, done);
      return size;
    }

    ghost predicate WrittenSoFar(buffer: array<Byte>, was: nat -> Byte, start: nat, done: nat, logWas: seq<Access>)
      reads this, buffer
    {
      && done <= buffer.Length
      && (forall a: nat :: mem(a) == if start <= a < start + done then buffer[a - start] else was(a))
      && logWas <= log
      && Sweeps(log[|logWas|..], start, start + done)
    }

    /** One write cycle of the bytes at `done` of the buffer. */
    method WriteMore(buffer: array<Byte>, start: nat, done: nat, width: nat, ghost was: nat -> Byte, ghost logWas: seq<Access>)
      requires WrittenSoFar(buffer, was, start, done, logWas)
      requires NaturallyAligned(Access(start + done, width)) && done + width <= buffer.Length
      modifies this
      ensures WrittenSoFar(buffer, was, start, done + width, logWas)
    {
      ghost var before := log;
      var value := Gather(buffer, done, width);
      Write(start + done, width, value);
      SweepsOneMore(before[|logWas|..], start, start + done, Access(start + done, width));
      assert log[|logWas|..] == before[|logWas|..] + [Access(start + done, width)];
    }

    /** A byte and a word at most, to reach 32-bit alignment. */
    method WriteHead(buffer: array<Byte>, start: nat, size: nat, ghost was: nat -> Byte, ghost logWas: seq<Access>) returns (done: nat)
      requires WrittenSoFar(buffer, was, start, 0, logWas) && 0 < size <= buffer.Length
      modifies this
      ensures done <= size && WrittenSoFar(buffer, was, start, done, logWas)
      ensures (start + done) % 4 == 0 || size - done < 2
    {
      done := 0;
      if start % 2 != 0 {
        WriteMore(buffer, start, done, 1, was, logWas);
        done := done + 1;
      }
      EvenAddress(start + done);
      if size - done >= 2 && (start + done) / 2 % 2 != 0 {
        WriteMore(buffer, start, done, 2, was, logWas);
        done := done + 2;
      }
    }

    /** As many 32-bit cycles as possible. */
    method WriteWords(buffer: array<Byte>, start: nat, size: nat, ghost was: nat -> Byte, ghost logWas: seq<Access>, from: nat) returns (done: nat)
      requires WrittenSoFar(buffer, was, start, from, logWas) && from <= size <= buffer.Length
      requires (start + from) % 4 == 0 || size - from < 2
      modifies this
      ensures from <= done <= size && WrittenSoFar(buffer, was, start, done, logWas)
      ensures size - done < 4 && ((start + done) % 4 == 0 || size - done < 2)
    {
      done := from;
      while size - done >= 4
        invariant from <= done <= size
        invariant WrittenSoFar(buffer, was, start, done, logWas)
        invariant (start + done) % 4 == 0 || size - done < 2
      {
        NextWord(start + done);
        WriteMore(buffer, start, done, 4, was, logWas);
        done := done + 4;
      }
    }

    /** The last word and the last byte, if any. */
    method WriteTail(buffer: array<Byte>, start: nat, size: nat, ghost was: nat -> Byte, ghost logWas: seq<Access>, from: nat)
      requires WrittenSoFar(buffer, was, start, from, logWas) && from <= size <= buffer.Length
      requires size - from < 4 && ((start + from) % 4 == 0 || size - from < 2)
      modifies this
      ensures WrittenSoFar(buffer, was, start, size, logWas)
    {
      var done := from;
      if size - done >= 2 {
        WordIsEven(start + done);
        WriteMore(buffer, start, done, 2, was, logWas);
        done := done + 2;
      }
      if size - done >= 1 {
        WriteMore(buffer, start, done, 1, was, logWas);
      }
    }

    /** PciExpressWriteBuffer(). */
    method WriteBuffer(startAddress: nat, size: nat, buffer: array<Byte>) returns (r: nat)
      requires InOneFunction(startAddress, size) && size <= buffer.Length
      modifies this
      ensures r == size
      ensures forall a: nat :: mem(a) ==
                if startAddress <= a < startAddress + size then buffer[a - startAddress] else old(mem)(a)
      ensures old(log) <= log && Sweeps(log[|old(log)|..], startAddress, startAddress + size)
    {
      ghost var was, logWas := mem, log;
      if size == 0 {
        return 0;
      }
      var done := WriteHead(buffer, startAddress, size, was, logWas);
      done := WriteWords(buffer, startAddress, size, was, logWas, done);
      WriteTail(buffer, startAddress, size, was, logWas, done);
      return size;
    }

    /** On plain memory, reading back gives what was written. */
    method WriteThenRead(startAddress: nat, size: nat, source: array<Byte>, target: array<Byte>)
      requires InOneFunction(startAddress, size) && size <= source.Length && size <= target.Length
      requires source != target
      modifies this, target
      ensures target[..size] == source[..size]
    {
      var _ := WriteBuffer(startAddress, size, source);
      var _ := ReadBuffer(startAddress, size, target);
    }
  }
}
