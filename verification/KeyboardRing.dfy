/**
  The receive ring of the virtio keyboard: a split virtqueue whose buffers are
  all published at the start and published again one by one as they are read.

  Ring positions are counted without bound in ghost fields; the indices that the
  driver and the device share are their low 16 bits. The device is assumed to
  use buffers in the order in which they were made available, and may run
  between any two steps of the driver.
*/
module KeyboardRing {
  import opened Efi

  // ----- wrapping positions -----

  /** Ring slot of position k. */
  function Slot(k: nat, q: nat): (r: nat)
    requires q > 0
    ensures r < q
  {
    if k < q then k else Slot(k - q, q)
  }

  lemma {:induction false} SlotIsMod(k: nat, q: nat)
    requires q > 0
    ensures Slot(k, q) == k % q
    decreases k
  {
    if k >= q {
      SlotIsMod(k - q, q);
      ModShift(k, q);
    } else {
      assert k / q == 0;
    }
  }

  lemma ModShift(k: nat, q: nat)
    requires q > 0 && k >= q
    ensures k % q == (k - q) % q
  {
    var d, r := (k - q) / q, (k - q) % q;
    assert k == q * (d + 1) + r;
    DivModUnique(k, q, d + 1, r);
  }

  lemma DivModUnique(k: nat, q: nat, d: nat, r: nat)
    requires q > 0 && r < q && k == q * d + r
    ensures k % q == r
  {
    MulOrder(q, k / q, d);
    MulOrder(q, d, k / q);
  }

  lemma MulOrder(q: nat, a: nat, b: nat)
    ensures a < b ==> q * a + q <= q * b
  {
    if a < b {
      assert q * b == q * (a + 1) + q * (b - a - 1);
    }
  }

  /** Less than a whole ring apart means different slots. */
  lemma {:induction false} SlotsDiffer(j: nat, k: nat, q: nat)
    requires q > 0 && j < k < j + q
    ensures Slot(j, q) != Slot(k, q)
    decreases k
  {
    if j >= q {
      SlotsDiffer(j - q, k - q, q);
    }
  }

  /** The slot to publish next is none of those that the device has. */
  lemma NotInFlight(used: nat, avail: nat, q: nat)
    requires q > 0 && avail < used + q
    ensures forall k :: used <= k < avail ==> Slot(k, q) != Slot(avail, q)
  {
    forall k | used <= k < avail ensures Slot(k, q) != Slot(avail, q) {
      SlotsDiffer(k, avail, q);
    }
  }

  lemma {:induction false} SlotOfMultiple(a: nat, b: nat, q: nat)
    requires q > 0
    ensures Slot(a * q + b, q) == Slot(b, q)
    decreases a
  {
    if a > 0 {
      SlotOfMultiple(a - 1, b, q);
      assert a * q + b == (a - 1) * q + b + q;
    }
  }

  /** The low 16 bits of position k still select its slot. */
  predicate SelectsSlot(k: nat, q: nat)
    requires q > 0
  {
    (k % TWO_TO_16) % q == Slot(k, q)
  }

  /** A 16-bit index selects the right slot at every position exactly when the queue size divides 65536. */
  lemma WrapExactly(q: nat)
    requires q > 0
    ensures (forall k: nat :: SelectsSlot(k, q)) <==> TWO_TO_16 % q == 0
  {
    if TWO_TO_16 % q == 0 {
      forall k: nat ensures SelectsSlot(k, q) {
        Slot16(k, q);
      }
    } else {
      FirstWrapFails(q);
    }
  }

  lemma FirstWrapFails(q: nat)
    requires q > 0 && TWO_TO_16 % q != 0
    ensures !SelectsSlot(TWO_TO_16, q)
  {
    SlotIsMod(TWO_TO_16, q);
    assert TWO_TO_16 % TWO_TO_16 == 0;
    SlotIsMod(0, q);
  }

  /** Before the index wraps for the first time any queue size will do. */
  predicate InReach(k: nat, q: nat)
    requires q > 0
  {
    k < TWO_TO_16 || TWO_TO_16 % q == 0
  }

  /** All positions up to k have a 16-bit index that selects their slot exactly when k is in reach. */
  lemma ReachExactly(k: nat, q: nat)
    requires q > 0
    ensures (forall j: nat :: j <= k ==> SelectsSlot(j, q)) <==> InReach(k, q)
  {
    if InReach(k, q) {
      forall j: nat | j <= k ensures SelectsSlot(j, q) {
        Slot16(j, q);
      }
    } else {
      FirstWrapFails(q);
    }
  }

  lemma Slot16(k: nat, q: nat)
    requires q > 0 && InReach(k, q)
    ensures SelectsSlot(k, q)
  {
    if TWO_TO_16 % q == 0 {
      SlotAfterWrap(k, q);
    } else {
      SlotIsMod(k, q);
    }
  }

  lemma SlotAfterWrap(k: nat, q: nat)
    requires q > 0 && TWO_TO_16 % q == 0
    ensures SelectsSlot(k, q)
  {
    var c, a, b := TWO_TO_16 / q, k / TWO_TO_16, k % TWO_TO_16;
    assert TWO_TO_16 == c * q;
    assert k == a * (c * q) + b;
    assert a * (c * q) == (a * c) * q;
    SlotOfMultiple(a * c, b, q);
    SlotIsMod(b, q);
  }

  /** A 16-bit index, one further. */
  function Next(idx: nat): nat {
    (idx + 1) % TWO_TO_16
  }

  lemma Next16(k: nat)
    ensures Next(k % TWO_TO_16) == (k + 1) % TWO_TO_16
  {
  }

  lemma Same16(j: nat, k: nat)
    requires j <= k <= j + 0x8000
    ensures j % TWO_TO_16 == k % TWO_TO_16 <==> j == k
  {
  }

  // ----- the ring -----

  /** Available entries from `used` to `avail` name the descriptor, and it the buffer, of their slot. */
  ghost predicate DeviceOwns(availRing: seq<nat>, desc: seq<nat>, used: nat, avail: nat, q: nat) {
    && 0 < q == |availRing| == |desc|
    && forall k :: used <= k < avail ==> availRing[Slot(k, q)] == Slot(k, q) && desc[Slot(k, q)] == Slot(k, q)
  }

  /** Used entries from `consumed` to `used` name their slot, and the buffer holds the message. */
  ghost predicate DriverOwns(usedRing: seq<UsedElem>, buffers: seq<seq<Byte>>, produced: seq<Message>,
                             consumed: nat, used: nat, q: nat)
  {
    && 0 < q == |usedRing| == |buffers|
    && used == |produced|
    && forall k :: consumed <= k < used ==>
         usedRing[Slot(k, q)] == UsedElem(Slot(k, q), produced[k].len) && buffers[Slot(k, q)] == produced[k].content
  }

  lemma DeviceFills(usedRing: seq<UsedElem>, buffers: seq<seq<Byte>>, produced: seq<Message>,
                    consumed: nat, used: nat, q: nat, m: Message)
    requires DriverOwns(usedRing, buffers, produced, consumed, used, q)
    requires used < consumed + q
    ensures var s := Slot(used, q);
            DriverOwns(usedRing[s := UsedElem(s, m.len)], buffers[s := m.content], produced + [m], consumed, used + 1, q)
  {
    forall k | consumed <= k < used ensures Slot(k, q) != Slot(used, q) {
      SlotsDiffer(k, used, q);
    }
  }

  /** Reading the oldest message may change its own entry of the used ring, and no other. */
  lemma DriverTakes(was: seq<UsedElem>, usedRing: seq<UsedElem>, buffers: seq<seq<Byte>>, produced: seq<Message>,
                    consumed: nat, used: nat, q: nat)
    requires DriverOwns(was, buffers, produced, consumed, used, q) && consumed < used <= consumed + q
    requires |usedRing| == |was| && forall i :: 0 <= i < |was| && i != Slot(consumed, q) ==> usedRing[i] == was[i]
    ensures DriverOwns(usedRing, buffers, produced, consumed + 1, used, q)
  {
    forall k | consumed < k < used ensures Slot(k, q) != Slot(consumed, q) {
      SlotsDiffer(consumed, k, q);
    }
  }

  lemma DriverPublishes(availRing: seq<nat>, desc: seq<nat>, used: nat, avail: nat, q: nat)
    requires DeviceOwns(availRing, desc, used, avail, q)
    requires avail < used + q
    ensures var s := Slot(avail, q);
            && DeviceOwns(availRing, desc[s := s], used, avail, q)
            && DeviceOwns(availRing[s := s], desc[s := s], used, avail + 1, q)
            && (desc[s] == s ==> DeviceOwns(availRing[s := s], desc, used, avail + 1, q))
            && DeviceOwns(availRing[s := s], desc, used, avail, q)
  {
    NotInFlight(used, avail, q);
    var s := Slot(avail, q);
    assert desc[s] == s ==> desc[s := s] == desc;
  }

  datatype UsedElem = UsedElem(id: nat, len: nat)

  /** What the device put into a buffer, and the length that it reported. */
  datatype Message = Message(content: seq<Byte>, len: nat)

  /** What the driver makes of a message: an impossible length counts as nothing. */
  function Received(m: Message, bufferSize: nat): seq<Byte>
    requires |m.content| == bufferSize
  {
    if m.len > bufferSize then [] else m.content[..m.len]
  }

  class Ring {
    const queueSize: nat
    const bufferSize: nat
    const desc: array<nat>             // descriptor i points at buffer desc[i]
    const availRing: array<nat>
    const usedRing: array<UsedElem>
    const buffers: array<seq<Byte>>
    var availIdx: nat
    var usedIdx: nat
    var headDescIdx: nat
    var nextDescIdx: nat
    var lastUsedIdx: nat
    var ready: bool
    ghost var avail: nat               // buffers published so far
    ghost var used: nat                // buffers filled by the device so far
    ghost var consumed: nat            // buffers read by the driver so far
    ghost var produced: seq<Message>
    ghost var delivered: seq<seq<Byte>>

    ghost predicate Shape() {
      && 1 <= queueSize <= 0x8000
      && desc.Length == queueSize && availRing.Length == queueSize
      && usedRing.Length == queueSize && buffers.Length == queueSize
      && desc != availRing
    }

    /** What driver and device rely on between any two steps. */
    ghost predicate Core()
      reads this, desc, availRing, usedRing, buffers
    {
      && Shape()
      && (avail > 0 ==> InReach(avail - 1, queueSize))
      && consumed <= used <= avail <= consumed + queueSize
      && availIdx == avail % TWO_TO_16 && usedIdx == used % TWO_TO_16
      && |produced| == used && |delivered| == consumed
      && (forall k :: 0 <= k < used ==> |produced[k].content| == bufferSize)
      && (forall k :: 0 <= k < consumed ==> delivered[k] == Received(produced[k], bufferSize))
      && DeviceOwns(availRing[..], desc[..], used, avail, queueSize)
      && DriverOwns(usedRing[..], buffers[..], produced, consumed, used, queueSize)
    }

    /** Between driver calls, once the ring has been filled. */
    ghost predicate Valid()
      reads this, desc, availRing, usedRing, buffers
    {
      && Core()
      && avail == consumed + queueSize
      && nextDescIdx == avail % TWO_TO_16 && headDescIdx == nextDescIdx
      && lastUsedIdx == consumed % TWO_TO_16
    }

    /** VirtioKeyboardInitRing(), then every buffer is published. */
    constructor (queueSize: nat, bufferSize: nat)
      requires 1 <= queueSize <= 0x8000
      ensures Core() && avail == 0 && consumed == 0 && nextDescIdx == 0 && headDescIdx == 0 && lastUsedIdx == 0
      ensures ready && produced == [] && delivered == []
      ensures fresh(desc) && fresh(availRing) && fresh(usedRing) && fresh(buffers)
    {
      this.queueSize := queueSize;
      this.bufferSize := bufferSize;
      desc := new nat[queueSize](_ => 0);
      availRing := new nat[queueSize](_ => 0);
      usedRing := new UsedElem[queueSize](_ => UsedElem(0, 0));
      buffers := new seq<Byte>[queueSize](_ => []);
      availIdx, usedIdx, headDescIdx, nextDescIdx, lastUsedIdx := 0, 0, 0, 0, 0;
      ready := true;
      avail, used, consumed := 0, 0, 0;
      produced, delivered := [], [];
    }

    /** The device fills the next available buffer, if there is one. */
    method DeviceStep(content: seq<Byte>, len: nat)
      requires Core() && |content| == bufferSize
      modifies this`usedIdx, this`used, this`produced, usedRing, buffers
      ensures Core() && used >= old(used) && old(produced) <= produced
    {
      Same16(used, avail);
      if availIdx == usedIdx {
        return;
      }
      var position := usedIdx % queueSize;
      Slot16(used, queueSize);
      var id := availRing[position];
      assert availRing[..][position] == id && desc[..][id] == desc[id];
      DeviceFills(usedRing[..], buffers[..], produced, consumed, used, queueSize, Message(content, len));
      Next16(used);
      buffers[desc[id]] := content;
      usedRing[position] := UsedElem(id, len);
      produced := produced + [Message(content, len)];
      used := used + 1;
      usedIdx := Next(usedIdx);
    }

    /** The device runs for a while. */
    method DeviceRun()
      requires Core()
      modifies this`usedIdx, this`used, this`produced, usedRing, buffers
      ensures Core() && used >= old(used) && old(produced) <= produced
    {
      var n: nat := *;
      while n > 0
        invariant Core() && used >= old(used) && old(produced) <= produced
      {
        var content: seq<Byte> := *;
        var len: nat := *;
        if |content| == bufferSize {
          DeviceStep(content, len);
        }
        n := n - 1;
      }
    }

    /** VirtioAppendDesc(): the next descriptor points at the buffer of the same number. */
    method AppendDesc(bufferNr: nat)
      requires Core() && avail < consumed + queueSize && InReach(avail, queueSize)
      requires nextDescIdx == avail % TWO_TO_16 && bufferNr == Slot(avail, queueSize)
      modifies this`nextDescIdx, desc, this`usedIdx, this`used, this`produced, usedRing, buffers
      ensures Core() && used >= old(used) && old(produced) <= produced
      ensures desc[Slot(avail, queueSize)] == Slot(avail, queueSize)
      ensures nextDescIdx == (avail + 1) % TWO_TO_16
    {
      Slot16(avail, queueSize);
      Next16(avail);
      DriverPublishes(availRing[..], desc[..], used, avail, queueSize);
      desc[nextDescIdx % queueSize] := bufferNr;
      nextDescIdx := Next(nextDescIdx);
      DeviceRun();
    }

    method SetAvailEntry(idx: nat)
      requires Core() && avail < consumed + queueSize && InReach(avail, queueSize)
      requires idx == headDescIdx == avail % TWO_TO_16
      modifies availRing, this`usedIdx, this`used, this`produced, usedRing, buffers
      ensures Core() && used >= old(used) && old(produced) <= produced
      ensures availRing[Slot(avail, queueSize)] == Slot(avail, queueSize)
    {
      Slot16(avail, queueSize);
      DriverPublishes(availRing[..], desc[..], used, avail, queueSize);
      availRing[idx % queueSize] := headDescIdx % queueSize;
      DeviceRun();
    }

    method SetAvailIdx(idx: nat)
      requires Core() && avail < consumed + queueSize && InReach(avail, queueSize)
      requires idx == (avail + 1) % TWO_TO_16
      requires var s := Slot(avail, queueSize); availRing[s] == s && desc[s] == s
      modifies this`availIdx, this`avail, this`usedIdx, this`used, this`produced, usedRing, buffers
      ensures Core() && avail == old(avail) + 1 && used >= old(used) && old(produced) <= produced
    {
      ghost var s := Slot(avail, queueSize);
      DriverPublishes(availRing[..], desc[..], used, avail, queueSize);
      assert availRing[..][s := s] == availRing[..] && desc[..][s := s] == desc[..];
      availIdx := idx;
      avail := avail + 1;
      DeviceRun();
    }

    /** VirtioKeyboardRingSendBuffer() for a receive ring: publish the next descriptor. */
    method SendBuffer()
      requires Core() && avail < consumed + queueSize && InReach(avail, queueSize)
      requires nextDescIdx == avail % TWO_TO_16 && headDescIdx == nextDescIdx
      modifies this`availIdx, this`headDescIdx, this`nextDescIdx, this`avail, this`usedIdx, this`used, this`produced,
               desc, availRing, usedRing, buffers
      ensures Core() && avail == old(avail) + 1 && used >= old(used) && old(produced) <= produced
      ensures nextDescIdx == avail % TWO_TO_16 && headDescIdx == nextDescIdx
      // The descriptor was not in the device's hands.
      ensures forall k :: old(used) <= k < old(avail) ==> Slot(k, queueSize) != Slot(old(avail), queueSize)
    {
      NotInFlight(used, avail, queueSize);
      Slot16(avail, queueSize);
      var bufferNr := nextDescIdx % queueSize;
      Next16(avail);
      var idx := availIdx;
      AppendDesc(bufferNr);
      SetAvailEntry(idx);
      headDescIdx := nextDescIdx;
      idx := Next(idx);
      SetAvailIdx(idx);
    }

    /** VirtioKeyboardRingFillRx(): publish every buffer. */
    method FillRx()
      requires Core() && avail == consumed == 0
      requires nextDescIdx == headDescIdx == lastUsedIdx == 0
      modifies this`availIdx, this`headDescIdx, this`nextDescIdx, this`avail, this`usedIdx, this`used, this`produced,
               desc, availRing, usedRing, buffers
      ensures Valid()
    {
      var bufferNr := 0;
      while bufferNr < queueSize
        invariant 0 <= bufferNr <= queueSize
        invariant Core() && avail == bufferNr && consumed == 0
        invariant nextDescIdx == avail % TWO_TO_16 && headDescIdx == nextDescIdx
      {
        SendBuffer();
        bufferNr := bufferNr + 1;
      }
    }

    /** VirtioKeyboardRingHasBuffer(). */
    method HasBuffer() returns (r: bool)
      requires Valid()
      ensures r <==> ready && consumed < used
    {
      var idx := usedIdx;
      Same16(consumed, used);
      if !ready {
        return false;
      }
      if lastUsedIdx == idx {
        return false;
      }
      return true;
    }

    /**
      VirtioKeyboardRingGetBuffer() for the receive ring: the oldest unread message,
      once. `taken` is the descriptor that was read, `requeued` the one published.
      The ring works on as long as ReachExactly says that it can.
    */
    method GetBuffer() returns (ok: bool, data: seq<Byte>, ghost taken: nat, ghost requeued: nat)
      requires Valid() && InReach(avail, queueSize)
      modifies this, desc, availRing, usedRing, buffers
      ensures Valid() && ready == old(ready) && old(produced) <= produced
      ensures ok <==> old(ready) && old(consumed) < old(used)
      ensures !ok ==> consumed == old(consumed) && delivered == old(delivered) && avail == old(avail)
      ensures ok ==>
                && consumed == old(consumed) + 1
                && data == Received(old(produced)[old(consumed)], bufferSize)
                && (var m := old(produced)[old(consumed)];
                    if m.len <= bufferSize then |data| == m.len && data <= m.content else data == [])
                && delivered == old(delivered) + [data]
                && taken == Slot(old(consumed), queueSize)
                && requeued == Slot(old(avail), queueSize) == taken
    {
      data, taken, requeued := [], 0, 0;
      var idx := usedIdx;
      Same16(consumed, used);
      if !ready {
        return false, data, taken, requeued;
      }
      if lastUsedIdx == idx {
        return false, data, taken, requeued;
      }
      data, taken, requeued := ReadAndRequeue();
      Next16(consumed - 1);
      lastUsedIdx := Next(lastUsedIdx);
      return true, data, taken, requeued;
    }

    method ReadAndRequeue() returns (data: seq<Byte>, ghost taken: nat, ghost requeued: nat)
      requires Valid() && consumed < used && InReach(avail, queueSize)
      modifies this`availIdx, this`headDescIdx, this`nextDescIdx, this`avail, this`usedIdx, this`used, this`produced,
               this`consumed, this`delivered, desc, availRing, usedRing, buffers
      ensures Core() && consumed == old(consumed) + 1 && old(produced) <= produced
      ensures avail == consumed + queueSize && nextDescIdx == avail % TWO_TO_16 && headDescIdx == nextDescIdx
      ensures data == Received(old(produced)[old(consumed)], bufferSize)
      ensures delivered == old(delivered) + [data]
      ensures taken == Slot(old(consumed), queueSize)
      ensures requeued == Slot(old(avail), queueSize) == taken
    {
      data, taken := ReadMessage();
      requeued := nextDescIdx % queueSize;
      RequeuedIsTaken(consumed - 1, queueSize);
      SendBuffer();
    }

    /** Copy the oldest message out; from here on its buffer may be published again. */
    method ReadMessage() returns (data: seq<Byte>, id: nat)
      requires Valid() && consumed < used
      modifies this`consumed, this`delivered, this`usedIdx, this`used, this`produced, usedRing, buffers
      ensures Core() && consumed == old(consumed) + 1 && old(produced) <= produced
      ensures id == Slot(old(consumed), queueSize)
      ensures data == Received(old(produced)[old(consumed)], bufferSize)
      ensures delivered == old(delivered) + [data]
    {
      DeviceRun();
      data, id := TakeMessage();
      DeviceRun();
    }

    /** The driver's part of reading a message: clamp the length, copy the bytes out. */
    method TakeMessage() returns (data: seq<Byte>, id: nat)
      requires Core() && consumed < used && lastUsedIdx == consumed % TWO_TO_16
      modifies this`consumed, this`delivered, usedRing
      ensures Core() && consumed == old(consumed) + 1
      ensures id == Slot(old(consumed), queueSize)
      ensures data == Received(produced[old(consumed)], bufferSize)
      ensures delivered == old(delivered) + [data]
    {
      Slot16(consumed, queueSize);
      var position := lastUsedIdx % queueSize;
      var elem := usedRing[position];
      ghost var was := usedRing[..];
      assert was[position] == elem && buffers[..][elem.id] == buffers[elem.id];
      if elem.len > bufferSize {
        elem := elem.(len := 0);
        usedRing[position] := elem;
      }
      data := buffers[elem.id][..elem.len];
      id := elem.id;
      DriverTakes(was, usedRing[..], buffers[..], produced, consumed, used, queueSize);
      consumed := consumed + 1;
      delivered := delivered + [data];
    }
  }

  /** With the whole ring published, the next descriptor is the one that was just read. */
  lemma RequeuedIsTaken(k: nat, q: nat)
    requires q > 0 && InReach(k + q, q)
    ensures ((k + q) % TWO_TO_16) % q == Slot(k, q) == Slot(k + q, q)
  {
    Slot16(k + q, q);
  }
}
