/**
  The bounce-buffer IOMMU protocol on top of the restricted DMA pool.

  Memory is one map from addresses to bytes, shared by the caller, the driver and
  the device. What the caller and the device do between protocol calls are the
  steps HostWrite and DeviceWrite.
*/
module IoMmu {
  import opened Efi
  import opened DmaPool

  type Memory = nat -> Byte

  function CopyMem(mem: Memory, dst: nat, src: nat, n: nat): Memory {
    (a: nat) => if dst <= a < dst + n then mem(a - dst + src) else mem(a)
  }

  function SetMem(mem: Memory, dst: nat, n: nat, value: Byte): Memory {
    (a: nat) => if dst <= a < dst + n then value else mem(a)
  }

  function Store(mem: Memory, dst: nat, data: seq<Byte>): Memory {
    (a: nat) => if dst <= a < dst + |data| then data[a - dst] else mem(a)
  }

  /** The bytes at `addr`, from the point of view of memory `mem`. */
  predicate Holds(mem: Memory, addr: nat, data: seq<Byte>) {
    forall k :: 0 <= k < |data| ==> mem(addr + k) == data[k]
  }

  predicate Disjoint(a: nat, n: nat, b: nat, m: nat) {
    n == 0 || m == 0 || a + n <= b || b + m <= a
  }

  datatype Operation = BusMasterRead | BusMasterWrite | CommonBuffer | Invalid

  // ----- blocks of pool pages -----

  datatype Block = Block(start: nat, pages: nat) {
    predicate Has(i: nat) {
      start <= i < start + pages
    }

    predicate InPool(totalPages: nat) {
      start < totalPages && start + pages <= totalPages
    }

    predicate Apart(other: Block) {
      Disjoint(start, pages, other.start, other.pages)
    }
  }

  const NO_BLOCK := Block(0, 0)

  /** The used pages are exactly the disjoint union of the blocks. */
  ghost predicate Tiled(blocks: seq<Block>, used: set<nat>, totalPages: nat) {
    && (forall j :: 0 <= j < |blocks| ==> blocks[j].InPool(totalPages))
    && (forall j, k :: 0 <= j < k < |blocks| ==> blocks[j].Apart(blocks[k]))
    && (forall i :: i in used <==> exists j :: 0 <= j < |blocks| && blocks[j].Has(i))
  }

  /** There is a run of n pages that are not in use. */
  ghost predicate HasRoom(used: set<nat>, totalPages: nat, n: nat) {
    exists start: nat :: Unused(used, start, n) && start + n <= totalPages
  }

  /** Where block j of `a + [b] + c` is found in `a + c`. */
  function Behind(j: nat, at: nat): nat
    requires j != at
  {
    if j < at then j else j - 1
  }

  lemma InsertedAt(a: seq<Block>, b: Block, c: seq<Block>, j: nat)
    requires j < |a| + 1 + |c|
    ensures j == |a| ==> (a + [b] + c)[j] == b
    ensures j != |a| ==> (a + [b] + c)[j] == (a + c)[Behind(j, |a|)]
  {
  }

  lemma InsertKeepsApart(a: seq<Block>, b: Block, c: seq<Block>, used: set<nat>, totalPages: nat)
    requires Tiled(a + c, used, totalPages)
    requires forall i :: b.Has(i) ==> i !in used
    ensures forall j, k :: 0 <= j < k < |a + [b] + c| ==> (a + [b] + c)[j].Apart((a + [b] + c)[k])
  {
    var before, after := a + c, a + [b] + c;
    forall j | 0 <= j < |before| ensures before[j].Apart(b) {
      assert forall i :: before[j].Has(i) ==> i in used;
      UnsharedIsApart(before[j], b, used);
    }
    forall j, k | 0 <= j < k < |after| ensures after[j].Apart(after[k]) {
      InsertedAt(a, b, c, j);
      InsertedAt(a, b, c, k);
      if j != |a| && k != |a| {
        assert before[Behind(j, |a|)].Apart(before[Behind(k, |a|)]);
      }
    }
  }

  lemma InsertAddsPages(a: seq<Block>, b: Block, c: seq<Block>, i: nat)
    ensures (exists j :: 0 <= j < |a + [b] + c| && (a + [b] + c)[j].Has(i)) <==>
            b.Has(i) || exists j :: 0 <= j < |a + c| && (a + c)[j].Has(i)
  {
    var before, after := a + c, a + [b] + c;
    InsertedAt(a, b, c, |a|);
    if j :| 0 <= j < |after| && after[j].Has(i) {
      InsertedAt(a, b, c, j);
      assert j != |a| ==> before[Behind(j, |a|)].Has(i);
    }
    if j :| 0 <= j < |before| && before[j].Has(i) {
      InsertedAt(a, b, c, if j < |a| then j else j + 1);
    }
  }

  lemma TiledInsert(a: seq<Block>, b: Block, c: seq<Block>, used: set<nat>, used': set<nat>, totalPages: nat)
    requires Tiled(a + c, used, totalPages)
    requires b.InPool(totalPages)
    requires forall i :: b.Has(i) ==> i !in used
    requires forall i :: i in used' <==> i in used || b.Has(i)
    ensures Tiled(a + [b] + c, used', totalPages)
  {
    InsertKeepsApart(a, b, c, used, totalPages);
    forall j | 0 <= j < |a + [b] + c| ensures (a + [b] + c)[j].InPool(totalPages) {
      InsertedAt(a, b, c, j);
    }
    forall i: nat ensures i in used' <==> exists j :: 0 <= j < |a + [b] + c| && (a + [b] + c)[j].Has(i) {
      InsertAddsPages(a, b, c, i);
    }
  }

  lemma TiledRemove(a: seq<Block>, b: Block, c: seq<Block>, used: set<nat>, used': set<nat>, totalPages: nat)
    requires Tiled(a + [b] + c, used, totalPages)
    requires forall i :: i in used' <==> i in used && !b.Has(i)
    ensures Tiled(a + c, used', totalPages)
  {
    var before, after := a + [b] + c, a + c;
    assert before[|a|] == b;
    forall j | 0 <= j < |after|
      ensures after[j] == before[if j < |a| then j else j + 1] && after[j].Apart(b)
    {
    }
    forall i ensures i in used' <==> exists j :: 0 <= j < |after| && after[j].Has(i) {
      if i in used' {
        var j :| 0 <= j < |before| && before[j].Has(i);
        assert j != |a|;
        assert after[if j < |a| then j else j - 1].Has(i);
      }
      if exists j :: 0 <= j < |after| && after[j].Has(i) {
        var j :| 0 <= j < |after| && after[j].Has(i);
        assert before[if j < |a| then j else j + 1].Has(i);
      }
    }
  }

  // ----- mappings -----

  /** MAP_INFO; `id` stands for the address of the object, the Mapping token. */
  datatype MapInfo = MapInfo(
    id: nat,
    operation: Operation,
    bytes: nat,
    hostAddress: nat,
    bounceUsed: bool,
    bounceAddress: nat,
    block: Block)

  ghost function Blocks(maps: seq<MapInfo>): (r: seq<Block>)
    ensures |r| == |maps|
  {
    seq(|maps|, i requires 0 <= i < |maps| => maps[i].block)
  }

  lemma BlocksConcat(a: seq<MapInfo>, b: seq<MapInfo>)
    ensures Blocks(a + b) == Blocks(a) + Blocks(b)
  {
  }

  /** A mapping whose bounce buffer, if any, lies in its block and holds `contents`. */
  ghost predicate ValidMap(m: MapInfo, base: nat, mem: Memory, contents: map<nat, seq<Byte>>) {
    && m.hostAddress + m.bytes <= TWO_TO_64
    && m.operation != Invalid
    && (m.bounceUsed <==> m.operation != CommonBuffer)
    && (!m.bounceUsed ==> m.block == NO_BLOCK)
    && m.id in contents
    && (m.bounceUsed ==>
          && m.bounceAddress == base + m.block.start * PAGE_SIZE
          && m.bytes <= m.block.pages * PAGE_SIZE
          && |contents[m.id]| == m.bytes
          && Holds(mem, m.bounceAddress, contents[m.id]))
  }

  ghost predicate ValidMaps(maps: seq<MapInfo>, nextId: nat, base: nat, mem: Memory, contents: map<nat, seq<Byte>>) {
    && (forall j :: 0 <= j < |maps| ==> maps[j].id < nextId && ValidMap(maps[j], base, mem, contents))
    && (forall j, k :: 0 <= j < k < |maps| ==> maps[j].id != maps[k].id)
  }

  /** The range [addr, addr + n) touches no bounce buffer, except possibly that of mapping `id`. */
  predicate ClearOfBounces(maps: seq<MapInfo>, addr: nat, n: nat, id: Option<nat>) {
    forall j :: 0 <= j < |maps| && maps[j].bounceUsed && Some(maps[j].id) != id ==>
      Disjoint(addr, n, maps[j].bounceAddress, maps[j].bytes)
  }

  /** Mappings survive a change of memory that stays clear of their bounce buffers. */
  lemma MapsKept(maps: seq<MapInfo>, nextId: nat, base: nat, mem: Memory, mem': Memory,
                 contents: map<nat, seq<Byte>>, addr: nat, n: nat)
    requires ValidMaps(maps, nextId, base, mem, contents)
    requires ClearOfBounces(maps, addr, n, None)
    requires forall a: nat :: !(addr <= a < addr + n) ==> mem'(a) == mem(a)
    ensures ValidMaps(maps, nextId, base, mem', contents)
  {
    forall j | 0 <= j < |maps| ensures ValidMap(maps[j], base, mem', contents) {
      var m := maps[j];
      assert ValidMap(m, base, mem, contents);
      if m.bounceUsed {
        forall k | 0 <= k < |contents[m.id]| ensures mem'(m.bounceAddress + k) == contents[m.id][k] {
          assert mem(m.bounceAddress + k) == contents[m.id][k];
        }
      }
    }
  }

  /** A page range that no block uses touches no bounce buffer. */
  lemma FreshBlockIsClear(maps: seq<MapInfo>, nextId: nat, base: nat, mem: Memory, contents: map<nat, seq<Byte>>,
                          commons: seq<Block>, used: set<nat>, totalPages: nat, b: Block, n: nat)
    requires ValidMaps(maps, nextId, base, mem, contents)
    requires Tiled(Blocks(maps) + commons, used, totalPages)
    requires forall i :: b.Has(i) ==> i !in used
    requires n <= b.pages * PAGE_SIZE
    ensures ClearOfBounces(maps, base + b.start * PAGE_SIZE, n, None)
  {
    var blocks := Blocks(maps) + commons;
    forall j | 0 <= j < |maps| && maps[j].bounceUsed
      ensures Disjoint(base + b.start * PAGE_SIZE, n, maps[j].bounceAddress, maps[j].bytes)
    {
      assert blocks[j] == maps[j].block;
      assert ValidMap(maps[j], base, mem, contents);
      assert forall i :: maps[j].block.Has(i) ==> i in used;
      UnsharedIsApart(maps[j].block, b, used);
    }
  }

  lemma UnsharedIsApart(a: Block, b: Block, used: set<nat>)
    requires forall i :: a.Has(i) ==> i in used
    requires forall i :: b.Has(i) ==> i !in used
    ensures a.Apart(b)
  {
    var i := if a.start < b.start then b.start else a.start;
    assert !(a.Has(i) && b.Has(i));
  }

  function Snapshot(mem: Memory, addr: nat, n: nat): (r: seq<Byte>)
    ensures |r| == n && Holds(mem, addr, r)
  {
    seq(n, k requires 0 <= k < n => mem(addr + k))
  }

  lemma SnapshotOfCopy(mem: Memory, dst: nat, src: nat, n: nat)
    ensures Snapshot(CopyMem(mem, dst, src, n), dst, n) == Snapshot(mem, src, n)
  {
  }

  lemma AddMap(maps: seq<MapInfo>, m: MapInfo, base: nat, mem: Memory, contents: map<nat, seq<Byte>>, data: seq<Byte>)
    requires ValidMaps(maps, m.id, base, mem, contents)
    requires ValidMap(m, base, mem, contents[m.id := data])
    ensures ValidMaps(maps + [m], m.id + 1, base, mem, contents[m.id := data])
    ensures Blocks(maps + [m]) == Blocks(maps) + [m.block]
  {
    forall j | 0 <= j < |maps| ensures ValidMap(maps[j], base, mem, contents[m.id := data]) {
      assert ValidMap(maps[j], base, mem, contents);
    }
  }

  /** A new mapping on a fresh block, whose bounce buffer may have been written. */
  lemma AddBounce(maps: seq<MapInfo>, m: MapInfo, base: nat, mem: Memory, mem': Memory, contents: map<nat, seq<Byte>>,
                  commons: seq<Block>, used: set<nat>, used': set<nat>, totalPages: nat)
    requires ValidMaps(maps, m.id, base, mem, contents)
    requires Tiled(Blocks(maps) + commons, used, totalPages)
    requires m.bounceUsed && m.operation != CommonBuffer && m.operation != Invalid
    requires m.hostAddress + m.bytes <= TWO_TO_64
    requires m.bounceAddress == base + m.block.start * PAGE_SIZE && m.bytes <= m.block.pages * PAGE_SIZE
    requires m.block.InPool(totalPages)
    requires forall i :: m.block.Has(i) ==> i !in used
    requires forall i :: i in used' <==> i in used || m.block.Has(i)
    requires forall a: nat :: !(m.bounceAddress <= a < m.bounceAddress + m.bytes) ==> mem'(a) == mem(a)
    ensures Tiled(Blocks(maps + [m]) + commons, used', totalPages)
    ensures ValidMaps(maps + [m], m.id + 1, base, mem', contents[m.id := Snapshot(mem', m.bounceAddress, m.bytes)])
  {
    TiledInsert(Blocks(maps), m.block, commons, used, used', totalPages);
    FreshBlockIsClear(maps, m.id, base, mem, contents, commons, used, totalPages, m.block, m.bytes);
    MapsKept(maps, m.id, base, mem, mem', contents, m.bounceAddress, m.bytes);
    AddMap(maps, m, base, mem', contents, Snapshot(mem', m.bounceAddress, m.bytes));
  }

  /** Dropping a mapping, after a write that only its own bounce buffer may have met. */
  lemma RemoveMap(maps: seq<MapInfo>, j: nat, nextId: nat, base: nat, mem: Memory, mem': Memory,
                  contents: map<nat, seq<Byte>>, commons: seq<Block>, used: set<nat>, used': set<nat>, totalPages: nat,
                  addr: nat, n: nat)
    requires j < |maps|
    requires ValidMaps(maps, nextId, base, mem, contents)
    requires Tiled(Blocks(maps) + commons, used, totalPages)
    requires forall i :: i in used' <==> i in used && !maps[j].block.Has(i)
    requires forall a: nat :: !(addr <= a < addr + n) ==> mem'(a) == mem(a)
    ensures var rest := maps[..j] + maps[j + 1..];
            && (ClearOfBounces(maps, addr, n, Some(maps[j].id)) ==> ValidMaps(rest, nextId, base, mem', contents))
            && Tiled(Blocks(rest) + commons, used', totalPages)
            && maps[j] !in rest
  {
    var a, b, c := maps[..j], maps[j], maps[j + 1..];
    assert maps == a + [b] + c;
    BlocksConcat(a + [b], c);
    BlocksConcat(a, [b]);
    BlocksConcat(a, c);
    assert Blocks(maps) + commons == Blocks(a) + [b.block] + (Blocks(c) + commons);
    TiledRemove(Blocks(a), b.block, Blocks(c) + commons, used, used', totalPages);
    assert Blocks(a) + (Blocks(c) + commons) == Blocks(a + c) + commons;
    if ClearOfBounces(maps, addr, n, Some(maps[j].id)) {
      assert ClearOfBounces(a + c, addr, n, None);
      MapsKept(a + c, nextId, base, mem, mem', contents, addr, n);
    }
  }

  /** The pages of a bounce buffer; the size computation wraps at the top of the address space. */
  ghost function BouncePages(bytes: nat): nat {
    var pages := SizeToPages(bytes);
    if (pages * PAGE_SIZE) % TWO_TO_64 < bytes then pages + 1 else pages
  }

  /** They are the fewest that hold the bytes if and only if the size in pages does not wrap; else there is one page more. */
  lemma BouncePagesAreLeast(bytes: nat)
    requires bytes <= MAX_UINT64
    ensures bytes <= BouncePages(bytes) * PAGE_SIZE
    ensures (forall p: nat :: bytes <= p * PAGE_SIZE ==> BouncePages(bytes) <= p) <==> bytes <= TWO_TO_64 - PAGE_SIZE
  {
    var least := SizeToPages(bytes);
    assert bytes <= least * PAGE_SIZE < bytes + PAGE_SIZE;
    if bytes <= TWO_TO_64 - PAGE_SIZE {
      assert least * PAGE_SIZE < TWO_TO_64;
      forall p: nat | bytes <= p * PAGE_SIZE ensures BouncePages(bytes) <= p {
        assert (p + 1) * PAGE_SIZE > least * PAGE_SIZE;
      }
    } else {
      assert least == TWO_TO_64 / PAGE_SIZE;
      assert (least * PAGE_SIZE) % TWO_TO_64 == 0;
      assert bytes <= least * PAGE_SIZE && BouncePages(bytes) == least + 1;
    }
  }

  /** What callers and devices can do. */
  datatype Step =
    | DoMap(operation: Operation, hostAddress: nat, bytes: nat)
    | DoUnmap(mapping: MapInfo)
    | DoAllocate(pages: nat, attributesOk: bool)
    | DoFree(j: nat)
    | DoOutsideWrite(addr: nat, data: seq<Byte>)
    | DoDeviceWrite(mapping: MapInfo, offset: nat, data: seq<Byte>)

  // ----- what a device has written -----

  function Patch(was: seq<Byte>, offset: nat, data: seq<Byte>): (r: seq<Byte>)
    requires offset + |data| <= |was|
    ensures |r| == |was|
  {
    was[..offset] + data + was[offset + |data|..]
  }

  /** The step is a write by the device into the bounce buffer of mapping m. */
  predicate WritesTo(m: MapInfo, step: Step) {
    step.DoDeviceWrite? && step.mapping == m && m.operation == BusMasterWrite && step.offset + |step.data| <= m.bytes
  }

  /** The bounce buffer of mapping m after a run, if it began with `was`. */
  function AfterSteps(m: MapInfo, steps: seq<Step>, was: seq<Byte>): (r: seq<Byte>)
    requires m.bounceUsed ==> |was| == m.bytes
    ensures |r| == |was|
  {
    if steps == [] then was
    else
      var before, step := AfterSteps(m, steps[..|steps| - 1], was), steps[|steps| - 1];
      if m.bounceUsed && WritesTo(m, step) then Patch(before, step.offset, step.data) else before
  }

  /** A buffer that the device reads keeps its map-time snapshot. */
  lemma {:induction false} ReadBufferKept(m: MapInfo, steps: seq<Step>, was: seq<Byte>)
    requires m.operation == BusMasterRead && |was| == m.bytes
    ensures AfterSteps(m, steps, was) == was
    decreases |steps|
  {
    if steps != [] {
      ReadBufferKept(m, steps[..|steps| - 1], was);
    }
  }

  /** The last byte that the device wrote at offset k, if it wrote one. */
  function DeviceByte(m: MapInfo, steps: seq<Step>, k: nat): Option<Byte> {
    if steps == [] then None
    else
      var step := steps[|steps| - 1];
      if WritesTo(m, step) && step.offset <= k < step.offset + |step.data| then Some(step.data[k - step.offset])
      else DeviceByte(m, steps[..|steps| - 1], k)
  }

  /** Byte for byte: what the device wrote last, or else what the pool page held at the time of the mapping. */
  lemma {:induction false} ByteOrigin(m: MapInfo, steps: seq<Step>, was: seq<Byte>, k: nat)
    requires m.bounceUsed && |was| == m.bytes && k < m.bytes
    ensures AfterSteps(m, steps, was)[k] == if DeviceByte(m, steps, k).Some? then DeviceByte(m, steps, k).value else was[k]
    decreases |steps|
  {
    if steps != [] {
      ByteOrigin(m, steps[..|steps| - 1], was, k);
    }
  }

  /**
    The result is the device's alone, whatever the pool page held before, if and only if the
    device has written every byte.
  */
  lemma DeviceOnlyExactly(m: MapInfo, steps: seq<Step>)
    requires m.bounceUsed
    ensures (forall was, was' :: |was| == |was'| == m.bytes ==> AfterSteps(m, steps, was) == AfterSteps(m, steps, was')) <==>
            forall k :: 0 <= k < m.bytes ==> DeviceByte(m, steps, k).Some?
  {
    if forall k :: 0 <= k < m.bytes ==> DeviceByte(m, steps, k).Some? {
      forall was, was' | |was| == |was'| == m.bytes
        ensures AfterSteps(m, steps, was) == AfterSteps(m, steps, was')
      {
        SameFromDevice(m, steps, was, was');
      }
    } else {
      var k :| 0 <= k < m.bytes && DeviceByte(m, steps, k).None?;
      var was := seq(m.bytes, _ => 0 as Byte);
      ByteOrigin(m, steps, was, k);
      ByteOrigin(m, steps, was[k := 1], k);
    }
  }

  lemma SameFromDevice(m: MapInfo, steps: seq<Step>, was: seq<Byte>, was': seq<Byte>)
    requires m.bounceUsed && |was| == |was'| == m.bytes
    requires forall k :: 0 <= k < m.bytes ==> DeviceByte(m, steps, k).Some?
    ensures AfterSteps(m, steps, was) == AfterSteps(m, steps, was')
  {
    forall k | 0 <= k < m.bytes ensures AfterSteps(m, steps, was)[k] == AfterSteps(m, steps, was')[k] {
      ByteOrigin(m, steps, was, k);
      ByteOrigin(m, steps, was', k);
    }
  }

  /** The device writes one byte of two: the other is what the pool page held before. */
  lemma PartialWriteKeepsStaleByte()
    ensures var m := MapInfo(0, BusMasterWrite, 2, 0, true, 0, Block(0, 1));
            AfterSteps(m, [DoDeviceWrite(m, 0, [7])], [1, 2]) == [7, 2]
  {
    var m := MapInfo(0, BusMasterWrite, 2, 0, true, 0, Block(0, 1));
    var step := DoDeviceWrite(m, 0, [7]);
    assert [step][..0] == [] && [step][0] == step;
    assert AfterSteps(m, [], [1, 2]) == [1, 2];
    assert Patch([1, 2], 0, [7]) == [7, 2];
  }

  class IoMmu {
    const pool: Pool
    var mem: Memory
    var maps: seq<MapInfo>
    var nextId: nat
    var commons: seq<Block>                  // buffers that callers hold from AllocateBuffer
    ghost var contents: map<nat, seq<Byte>>  // what each live bounce buffer must hold

    ghost predicate Valid()
      reads this, pool, pool.bitmap
    {
      && pool.Valid()
      && Tiled(Blocks(maps) + commons, pool.Used(), pool.totalPages)
      && ValidMaps(maps, nextId, pool.base, mem, contents)
    }

    constructor (pool: Pool, mem: Memory)
      requires pool.Valid()
      requires forall i :: 0 <= i < pool.totalPages ==> !pool.IsSet(i)
      ensures Valid() && this.pool == pool && this.mem == mem && maps == [] && commons == []
    {
      this.pool := pool;
      this.mem := mem;
      maps := [];
      nextId := 0;
      commons := [];
      contents := map[];
    }

    /** A free run of the bitmap is a run of unused pages. */
    lemma RoomIsFreeRun(n: nat)
      requires pool.Valid()
      ensures HasRoom(pool.Used(), pool.totalPages, n) <==>
              exists s :: 0 <= s && s + n <= pool.totalPages && pool.IsFree(s, n)
    {
      forall s: nat | s + n <= pool.totalPages ensures Unused(pool.Used(), s, n) <==> pool.IsFree(s, n) {
        pool.FreeIsUnused(s, n);
      }
    }

    /** DmaPoolAllocatePages() seen as sets of pages. */
    method AllocateBlock(pages: nat) returns (ok: bool, address: nat, block: Block)
      requires pool.Valid()
      modifies pool.bitmap
      ensures ok <==> HasRoom(old(pool.Used()), pool.totalPages, Pool.Need(pages))
      ensures !ok ==> pool.Used() == old(pool.Used())
      ensures ok ==>
                && block.pages == pages
                && block.InPool(pool.totalPages)
                && address == pool.base + block.start * PAGE_SIZE
                && (forall i :: block.Has(i) ==> i !in old(pool.Used()))
                && (forall i :: i in pool.Used() <==> i in old(pool.Used()) || block.Has(i))
    {
      RoomIsFreeRun(Pool.Need(pages));
      var status;
      ghost var start;
      status, address, start := pool.AllocatePages(pages);
      ok, block := status == Success, NO_BLOCK;
      if ok {
        block := Block((address - pool.base) / PAGE_SIZE, pages);
      }
    }

    /** What a successful Map() leaves alone. */
    twostate predicate OthersKept(mapping: MapInfo)
      reads this
    {
      && (forall a: nat :: !(mapping.bounceUsed && mapping.bounceAddress <= a < mapping.bounceAddress + mapping.bytes) ==>
            mem(a) == old(mem)(a))
      && (forall id :: id in old(contents) && id != mapping.id ==> id in contents && contents[id] == old(contents)[id])
      && commons == old(commons)
    }

    /** The pages of a bounce buffer, as the driver counts them. */
    static method CountPages(bytes: nat) returns (pages: nat)
      ensures pages == BouncePages(bytes)
    {
      pages := bytes / PAGE_SIZE;
      if bytes % PAGE_SIZE != 0 {
        pages := pages + 1;
      }
      if (pages * PAGE_SIZE) % TWO_TO_64 < bytes {
        pages := pages + 1;
      }
    }

    /** BusMasterRead and BusMasterWrite: a bounce buffer, filled now if the device will read it. */
    method MapBounce(operation: Operation, hostAddress: nat, bytes: nat)
      returns (status: Status, mapping: MapInfo)
      requires Valid()
      requires operation == BusMasterRead || operation == BusMasterWrite
      requires hostAddress + bytes <= TWO_TO_64
      modifies this, pool.bitmap
      ensures Valid() && OthersKept(mapping) && nextId >= old(nextId) && mapping.id == old(nextId)
      ensures status == if HasRoom(old(pool.Used()), pool.totalPages, Pool.Need(BouncePages(bytes))) then Success else OutOfResources
      ensures status != Success ==> maps == old(maps) && mem == old(mem) && pool.Used() == old(pool.Used())
      ensures status == Success ==>
                && maps == old(maps) + [mapping]
                && mapping.id == old(nextId)
                && mapping.operation == operation && mapping.hostAddress == hostAddress && mapping.bytes == bytes
                && mapping.bounceUsed
                && (forall i :: mapping.block.Has(i) ==> i !in old(pool.Used()))
                && mapping.id in contents
                && contents[mapping.id] == Snapshot(old(mem), if operation == BusMasterRead then hostAddress else mapping.bounceAddress, bytes)
                && (operation == BusMasterWrite ==> mem == old(mem))
    {
      mapping := MapInfo(nextId, operation, bytes, hostAddress, false, 0, NO_BLOCK);
      ghost var used := pool.Used();
      var pages := CountPages(bytes);
      var ok, bounce, block := AllocateBlock(pages);
      if !ok {
        return OutOfResources, mapping;
      }
      mapping := mapping.(bounceUsed := true, bounceAddress := bounce, block := block);
      var mem': Memory := if operation == BusMasterRead then CopyMem(mem, bounce, hostAddress, bytes) else mem;
      AddBounce(maps, mapping, pool.base, mem, mem', contents, commons, used, pool.Used(), pool.totalPages);
      SnapshotOfCopy(mem, bounce, hostAddress, bytes);
      contents := contents[mapping.id := Snapshot(mem', bounce, bytes)];
      mem := mem';
      maps := maps + [mapping];
      nextId := nextId + 1;
      return Success, mapping;
    }

    /** GunyahIoMmuMap(). */
    method Map(operation: Operation, hostAddress: nat, bytes: nat)
      returns (status: Status, deviceAddress: nat, mapping: MapInfo)
      requires Valid()
      requires hostAddress + bytes <= TWO_TO_64
      modifies this, pool.bitmap
      ensures Valid() && OthersKept(mapping) && nextId >= old(nextId) && mapping.id == old(nextId)
      ensures status == InvalidParameter <==> operation == Invalid
      ensures operation == BusMasterRead || operation == BusMasterWrite ==>
                status == if HasRoom(old(pool.Used()), pool.totalPages, Pool.Need(BouncePages(bytes))) then Success else OutOfResources
      ensures operation == CommonBuffer ==>
                status == Success && deviceAddress == hostAddress && pool.Used() == old(pool.Used()) && mem == old(mem)
      ensures status != Success ==> maps == old(maps) && mem == old(mem) && pool.Used() == old(pool.Used())
      ensures status == Success ==>
                && maps == old(maps) + [mapping]
                && mapping.id == old(nextId)
                && mapping.operation == operation && mapping.hostAddress == hostAddress && mapping.bytes == bytes
                && (mapping.bounceUsed ==> deviceAddress == mapping.bounceAddress)
                && (forall i :: mapping.block.Has(i) ==> i !in old(pool.Used()))
                // The device reads what the host buffer holds now; before it writes, the page has its old contents.
                && (operation != CommonBuffer ==>
                      && mapping.bounceUsed && mapping.id in contents
                      && contents[mapping.id] ==
                         Snapshot(old(mem), if operation == BusMasterRead then hostAddress else mapping.bounceAddress, bytes))
                && (operation == BusMasterWrite ==> mem == old(mem))
    {
      deviceAddress, mapping := 0, MapInfo(nextId, operation, bytes, hostAddress, false, 0, NO_BLOCK);
      if operation == Invalid {
        status := InvalidParameter;
      } else if operation == CommonBuffer {
        TiledInsert(Blocks(maps), NO_BLOCK, commons, pool.Used(), pool.Used(), pool.totalPages);
        AddMap(maps, mapping, pool.base, mem, contents, []);
        contents := contents[mapping.id := []];
        maps := maps + [mapping];
        nextId := nextId + 1;
        deviceAddress := hostAddress;
        status := Success;
      } else {
        status, mapping := MapBounce(operation, hostAddress, bytes);
        deviceAddress := mapping.bounceAddress;
      }
    }

    /** DmaPoolFreePages() on a live block, seen as sets of pages. */
    method FreeBlock(pages: nat, address: nat, ghost block: Block)
      requires pool.Valid()
      requires block.pages == pages && block.InPool(pool.totalPages)
      requires address == pool.base + block.start * PAGE_SIZE
      modifies pool.bitmap
      ensures forall i :: i in pool.Used() <==> i in old(pool.Used()) && !block.Has(i)
    {
      FreeOwnBlock(pool.base, pool.totalPages, block.start, pages, address);
      pool.FreePages(pages, address);
    }

    /** The host buffer of a mapping that the device writes meets no bounce buffer but its own. */
    predicate HostIsClear(maps: seq<MapInfo>, mapping: MapInfo) {
      mapping.operation == BusMasterWrite ==> ClearOfBounces(maps, mapping.hostAddress, mapping.bytes, Some(mapping.id))
    }

    /** The mapping is gone, the caller has what its bounce buffer held, and nothing else has changed. */
    twostate predicate Unmapped(mapping: MapInfo)
      requires mapping.id in old(contents)
      reads this
    {
      && commons == old(commons) && contents == old(contents) && nextId == old(nextId)
      && (exists j :: 0 <= j < |old(maps)| && old(maps)[j] == mapping && maps == old(maps)[..j] + old(maps)[j + 1..])
      && mapping !in maps
      && (mapping.operation == BusMasterWrite ==>
            && Holds(mem, mapping.hostAddress, old(contents)[mapping.id])
            && forall a: nat :: !(mapping.hostAddress <= a < mapping.hostAddress + mapping.bytes) ==> mem(a) == old(mem)(a))
      && (mapping.operation != BusMasterWrite ==> mem == old(mem))
    }

    /**
      GunyahIoMmuUnmap(); None stands for NULL, or memory that does not begin with the
      signature. If the host buffer overlaps the bounce buffer of another mapping, that
      one may no longer hold what it should; all else is as promised.
    */
    method Unmap(token: Option<MapInfo>) returns (status: Status)
      requires Valid() && (token.Some? ==> token.value in maps)
      modifies this, pool.bitmap
      ensures token.None? ==> status == InvalidParameter && Valid() && unchanged(this) && unchanged(pool.bitmap)
      ensures token.Some? ==>
                && status == Success && token.value.id in old(contents) && Unmapped(token.value)
                && pool.Valid() && Tiled(Blocks(maps) + commons, pool.Used(), pool.totalPages)
                && (forall i :: i in pool.Used() <==> i in old(pool.Used()) && !token.value.block.Has(i))
                && (HostIsClear(old(maps), token.value) ==> Valid())
    {
      if token.None? {
        return InvalidParameter;
      }
      LiveMaps(maps, nextId, pool.base, mem, contents);
      UnmapLive(token.value);
      return Success;
    }

    method UnmapLive(mapping: MapInfo)
      requires Valid() && mapping in maps && mapping.id in contents
      modifies this, pool.bitmap
      ensures Unmapped(mapping)
      ensures pool.Valid() && Tiled(Blocks(maps) + commons, pool.Used(), pool.totalPages)
      ensures forall i :: i in pool.Used() <==> i in old(pool.Used()) && !mapping.block.Has(i)
      ensures HostIsClear(old(maps), mapping) ==> Valid()
    {
      var j :| 0 <= j < |maps| && maps[j] == mapping;
      assert ValidMap(mapping, pool.base, mem, contents);
      ghost var used, written := pool.Used(), if mapping.operation == BusMasterWrite then mapping.bytes else 0;
      var mem' := CopyBack(mapping);
      ReleaseBounce(mapping);
      RemoveMap(maps, j, nextId, pool.base, mem, mem', contents, commons, used, pool.Used(), pool.totalPages,
                mapping.hostAddress, written);
      mem := mem';
      maps := maps[..j] + maps[j + 1..];
    }

    /** What the device has written goes to the host buffer. */
    method CopyBack(mapping: MapInfo) returns (mem': Memory)
      requires ValidMap(mapping, pool.base, mem, contents)
      ensures mapping.operation == BusMasterWrite ==>
                && Holds(mem', mapping.hostAddress, contents[mapping.id])
                && forall a: nat :: !(mapping.hostAddress <= a < mapping.hostAddress + mapping.bytes) ==> mem'(a) == mem(a)
      ensures mapping.operation != BusMasterWrite ==> mem' == mem
    {
      mem' := mem;
      if mapping.bounceUsed {
        if mapping.operation != BusMasterRead {
          mem' := CopyMem(mem, mapping.hostAddress, mapping.bounceAddress, mapping.bytes);
          HoldsAfterCopy(mem, mapping.hostAddress, mapping.bounceAddress, contents[mapping.id]);
        }
      }
    }

    /** The bounce buffer, if there is one, goes back to the pool. */
    method ReleaseBounce(mapping: MapInfo)
      requires Valid() && mapping in maps && ValidMap(mapping, pool.base, mem, contents)
      modifies pool.bitmap
      ensures pool.Valid() && forall i :: i in pool.Used() <==> i in old(pool.Used()) && !mapping.block.Has(i)
    {
      ghost var j :| 0 <= j < |maps| && maps[j] == mapping;
      assert (Blocks(maps) + commons)[j] == mapping.block;
      if mapping.bounceUsed {
        FreeBlock(mapping.block.pages, mapping.bounceAddress, mapping.block);
      }
    }

    /** GunyahIoMmuAllocateBuffer(); `attributesOk` is the attribute test. */
    method AllocateBuffer(pages: nat, attributesOk: bool) returns (status: Status, address: nat, block: Block)
      requires Valid()
      modifies this, pool.bitmap
      ensures Valid() && maps == old(maps) && contents == old(contents) && nextId == old(nextId)
      ensures status == if !attributesOk then Unsupported
                        else if HasRoom(old(pool.Used()), pool.totalPages, Pool.Need(pages)) then Success else OutOfResources
      ensures status != Success ==> mem == old(mem) && commons == old(commons) && pool.Used() == old(pool.Used())
      ensures status == Success ==>
                && commons == old(commons) + [block]
                && block.pages == pages && address == pool.base + block.start * PAGE_SIZE
                && (forall i :: block.Has(i) ==> i !in old(pool.Used()))
                && (forall i :: i in pool.Used() <==> i in old(pool.Used()) || block.Has(i))
                && forall a: nat :: mem(a) == if address <= a < address + pages * PAGE_SIZE then 0 else old(mem)(a)
    {
      address, block := 0, NO_BLOCK;
      if !attributesOk {
        return Unsupported, address, block;
      }
      ghost var used := pool.Used();
      var ok;
      ok, address, block := AllocateBlock(pages);
      if !ok {
        return OutOfResources, address, block;
      }
      var mem' := SetMem(mem, address, pages * PAGE_SIZE, 0);
      FreshBlockIsClear(maps, nextId, pool.base, mem, contents, commons, used, pool.totalPages, block, pages * PAGE_SIZE);
      MapsKept(maps, nextId, pool.base, mem, mem', contents, address, pages * PAGE_SIZE);
      ghost var live := Blocks(maps) + commons;
      assert live + [] == live;
      TiledInsert(live, block, [], used, pool.Used(), pool.totalPages);
      assert live + [block] + [] == Blocks(maps) + (commons + [block]);
      mem := mem';
      commons := commons + [block];
      return Success, address, block;
    }

    /**
      GunyahIoMmuFreeBuffer(). A caller who gives back their own buffer says which one; any
      other address and page count are passed on to the pool as well, and that is harmless
      exactly if no page in use is denoted.
    */
    method FreeBuffer(pages: nat, address: nat, own: Option<nat>)
      requires Valid() && pages <= MAX_UINT64 && address <= MAX_UINT64
      requires own.Some? ==>
                 && own.value < |commons| && commons[own.value].pages == pages
                 && address == pool.base + commons[own.value].start * PAGE_SIZE
      modifies this, pool.bitmap
      ensures maps == old(maps) && contents == old(contents) && mem == old(mem) && nextId == old(nextId)
      ensures forall i :: i in pool.Used() <==>
                i in old(pool.Used()) && !Denoted(pool.base, pool.totalPages, pages, address, i)
      ensures own.Some? ==> Valid() && commons == old(commons)[..own.value] + old(commons)[own.value + 1..]
      ensures own.None? ==>
                && commons == old(commons)
                && (Valid() <==> forall i :: i in old(pool.Used()) ==> !Denoted(pool.base, pool.totalPages, pages, address, i))
    {
      ghost var used := pool.Used();
      pool.FreePages(pages, address);
      if own.Some? {
        DropCommon(own.value, used);
        commons := commons[..own.value] + commons[own.value + 1..];
      } else {
        TilingIsExact(Blocks(maps) + commons, used, pool.Used(), pool.totalPages);
      }
    }

    /** Without the pages of one common buffer, the others are tiled. */
    lemma DropCommon(j: nat, used: set<nat>)
      requires pool.Valid() && Tiled(Blocks(maps) + commons, used, pool.totalPages) && j < |commons|
      requires forall i :: i in pool.Used() <==>
                 i in used && !Denoted(pool.base, pool.totalPages, commons[j].pages, pool.base + commons[j].start * PAGE_SIZE, i)
      ensures Tiled(Blocks(maps) + (commons[..j] + commons[j + 1..]), pool.Used(), pool.totalPages)
    {
      var b := commons[j];
      var a, c := Blocks(maps) + commons[..j], commons[j + 1..];
      assert Blocks(maps) + commons == a + [b] + c;
      assert (a + [b] + c)[|a|] == b;
      FreeOwnBlock(pool.base, pool.totalPages, b.start, b.pages, pool.base + b.start * PAGE_SIZE);
      TiledRemove(a, b, c, used, pool.Used(), pool.totalPages);
      assert a + c == Blocks(maps) + (commons[..j] + commons[j + 1..]);
    }

    /** The caller, or the device in a common buffer, writes memory outside the bounce buffers. */
    method OutsideWrite(addr: nat, data: seq<Byte>)
      requires Valid()
      requires ClearOfBounces(maps, addr, |data|, None)
      modifies this
      ensures Valid() && maps == old(maps) && commons == old(commons) && contents == old(contents) && nextId == old(nextId)
      ensures Holds(mem, addr, data)
    {
      var mem' := Store(mem, addr, data);
      MapsKept(maps, nextId, pool.base, mem, mem', contents, addr, |data|);
      mem := mem';
    }

    /** The device writes into the bounce buffer of a BusMasterWrite mapping. */
    method DeviceWrite(mapping: MapInfo, offset: nat, data: seq<Byte>)
      requires Valid()
      requires mapping in maps && mapping.operation == BusMasterWrite
      requires offset + |data| <= mapping.bytes
      modifies this
      ensures Valid() && maps == old(maps) && commons == old(commons) && nextId == old(nextId)
      ensures mapping.id in old(contents) && |old(contents)[mapping.id]| == mapping.bytes
      ensures contents == old(contents)[mapping.id := Patch(old(contents)[mapping.id], offset, data)]
    {
      var j :| 0 <= j < |maps| && maps[j] == mapping;
      assert ValidMap(mapping, pool.base, mem, contents);
      var addr := mapping.bounceAddress + offset;
      var mem' := Store(mem, addr, data);
      ghost var was := contents[mapping.id];
      ghost var now := Patch(was, offset, data);
      WriteKeepsMaps(maps, j, nextId, pool.base, mem, mem', contents, commons, pool.Used(), pool.totalPages, offset, data, now);
      mem := mem';
      contents := contents[mapping.id := now];
    }

    /** Every mapping that was live at both ends of a run holds what the run has made of its contents. */
    twostate predicate Tracked(steps: seq<Step>)
      reads this
    {
      forall m :: m in old(maps) && m in maps ==>
        && m.id in old(contents) && m.id in contents
        && (m.bounceUsed ==>
              && |old(contents)[m.id]| == m.bytes
              && contents[m.id] == AfterSteps(m, steps, old(contents)[m.id]))
    }

    /**
      Run any sequence of calls and writes; a step that its issuer may not make is skipped.
      A live bounce buffer holds its contents from the start of the run, changed by the
      device's writes to it and by nothing else.
    */
    method Execute(steps: seq<Step>)
      requires Valid()
      modifies this, pool.bitmap
      ensures Valid() && Tracked(steps) && nextId >= old(nextId)
      ensures forall m :: m in old(maps) && m in maps && m.bounceUsed ==> Holds(mem, m.bounceAddress, contents[m.id])
      ensures forall m :: m in maps && m.id < old(nextId) ==> m in old(maps)
      ensures forall m :: m in old(maps) && DoUnmap(m) !in steps ==> m in maps
      ensures Released(steps, old(maps), maps, pool.base, pool.totalPages)
    {
      LiveMaps(maps, nextId, pool.base, mem, contents);
      var n := 0;
      while n < |steps|
        invariant 0 <= n <= |steps|
        invariant Valid() && nextId >= old(nextId)
        invariant Tracked(steps[..n])
        invariant forall m :: m in maps && m.id < old(nextId) ==> m in old(maps)
        invariant forall m :: m in old(maps) && DoUnmap(m) !in steps ==> m in maps
        invariant Released(steps[..n], old(maps), maps, pool.base, pool.totalPages)
      {
        ghost var was, wasContents := maps, contents;
        ExecuteStep(steps[n]);
        OneStepMore(steps, n, old(maps), was, maps, old(contents), wasContents, contents, old(nextId));
        ReleasedByStep(steps, n, old(maps), was, maps, pool.base, pool.totalPages);
        n := n + 1;
      }
      assert steps[..n] == steps;
      LiveMaps(maps, nextId, pool.base, mem, contents);
    }

    method StepUnmap(mapping: MapInfo)
      requires Valid()
      modifies this, pool.bitmap
      ensures Valid() && contents == old(contents) && nextId == old(nextId)
      ensures forall m :: m in maps ==> m in old(maps)
      ensures forall m :: m in old(maps) && m != mapping ==> m in maps
      ensures HostOutside(mapping, pool.base, pool.totalPages) ==> mapping !in maps
    {
      OutsidePoolIsClear(maps, nextId, pool.base, mem, contents, commons, pool.Used(), pool.totalPages,
                         mapping.hostAddress, mapping.bytes);
      if mapping in maps && HostIsClear(maps, mapping) {
        var _ := Unmap(Some(mapping));
      }
    }

    method ExecuteStep(step: Step)
      requires Valid()
      modifies this, pool.bitmap
      ensures Valid() && nextId >= old(nextId)
      ensures forall m :: m in maps && m.id < old(nextId) ==> m in old(maps)
      ensures forall m :: m in old(maps) && step != DoUnmap(m) ==> m in maps
      ensures step.DoUnmap? && HostOutside(step.mapping, pool.base, pool.totalPages) ==> step.mapping !in maps
      ensures step.DoFree? && step.j < |old(commons)| ==> commons == old(commons)[..step.j] + old(commons)[step.j + 1..]
      ensures step.DoOutsideWrite? && ClearOfBounces(old(maps), step.addr, |step.data|, None) ==> Holds(mem, step.addr, step.data)
      ensures StepTracked(step, old(maps), maps, old(contents), contents)
    {
      LiveMaps(maps, nextId, pool.base, mem, contents);
      match step {
        case DoMap(operation, hostAddress, bytes) =>
          if hostAddress + bytes <= TWO_TO_64 {
            var _, _, _ := Map(operation, hostAddress, bytes);
          }
        case DoUnmap(m) =>
          StepUnmap(m);
        case DoAllocate(pages, attributesOk) =>
          var _, _, _ := AllocateBuffer(pages, attributesOk);
        case DoFree(j) =>
          if j < |commons| {
            OwnBlockFits(j);
            FreeBuffer(commons[j].pages, pool.base + commons[j].start * PAGE_SIZE, Some(j));
          }
        case DoOutsideWrite(addr, data) =>
          if ClearOfBounces(maps, addr, |data|, None) {
            OutsideWrite(addr, data);
          }
        case DoDeviceWrite(m, offset, data) =>
          if m in maps && m.operation == BusMasterWrite && offset + |data| <= m.bytes {
            DeviceWrite(m, offset, data);
          }
      }
    }

    lemma OwnBlockFits(j: nat)
      requires Valid() && j < |commons|
      ensures commons[j].pages <= MAX_UINT64 && pool.base + commons[j].start * PAGE_SIZE <= MAX_UINT64
    {
      assert (Blocks(maps) + commons)[|maps| + j] == commons[j];
    }

    /**
      Map for the device to write, any run, unmap: every byte of the host buffer is accounted
      for. With a host buffer outside the pool this works out whenever there is room for the
      bounce buffer and the run does not unmap it.
    */
    method DeviceToHost(hostAddress: nat, bytes: nat, steps: seq<Step>) returns (mapping: MapInfo, done: bool)
      requires Valid() && hostAddress + bytes <= TWO_TO_64
      modifies this, pool.bitmap
      ensures Valid()
      ensures && HasRoom(old(pool.Used()), pool.totalPages, Pool.Need(BouncePages(bytes)))
              && DoUnmap(mapping) !in steps
              && Disjoint(hostAddress, bytes, pool.base, pool.totalPages * PAGE_SIZE)
              ==> done
      ensures done ==>
                && mapping.bytes == bytes && mapping.bounceUsed
                && Holds(mem, hostAddress, AfterSteps(mapping, steps, Snapshot(old(mem), mapping.bounceAddress, bytes)))
    {
      var status, deviceAddress;
      status, deviceAddress, mapping := Map(BusMasterWrite, hostAddress, bytes);
      done := false;
      if status != Success {
        return;
      }
      Execute(steps);
      done := mapping in maps && ClearOfBounces(maps, hostAddress, bytes, Some(mapping.id));
      OutsidePoolIsClear(maps, nextId, pool.base, mem, contents, commons, pool.Used(), pool.totalPages, hostAddress, bytes);
      if done {
        var _ := Unmap(Some(mapping));
      }
    }

    /** With every mapping gone and every buffer returned, the pool is empty again. */
    lemma PoolComesBack()
      requires Valid() && maps == [] && commons == []
      ensures forall i :: 0 <= i < pool.totalPages ==> !pool.IsSet(i)
    {
      forall i | 0 <= i < pool.totalPages ensures !pool.IsSet(i) {
        assert i !in pool.Used();
      }
    }
  }

  /** Bounce buffers lie in the pool. */
  lemma OutsidePoolIsClear(maps: seq<MapInfo>, nextId: nat, base: nat, mem: Memory, contents: map<nat, seq<Byte>>,
                           commons: seq<Block>, used: set<nat>, totalPages: nat, addr: nat, n: nat)
    requires ValidMaps(maps, nextId, base, mem, contents) && Tiled(Blocks(maps) + commons, used, totalPages)
    ensures Disjoint(addr, n, base, totalPages * PAGE_SIZE) ==> forall id :: ClearOfBounces(maps, addr, n, id)
  {
    forall j | 0 <= j < |maps| && maps[j].bounceUsed
      ensures Disjoint(addr, n, base, totalPages * PAGE_SIZE) ==> Disjoint(addr, n, maps[j].bounceAddress, maps[j].bytes)
    {
      assert ValidMap(maps[j], base, mem, contents);
      assert (Blocks(maps) + commons)[j] == maps[j].block;
    }
  }

  /** The blocks determine the pages in use. */
  lemma TilingIsExact(blocks: seq<Block>, used: set<nat>, used': set<nat>, totalPages: nat)
    requires Tiled(blocks, used, totalPages) && used' <= used
    ensures Tiled(blocks, used', totalPages) <==> forall i :: i in used ==> i in used'
  {
    if Tiled(blocks, used', totalPages) {
      forall i | i in used ensures i in used' {
        assert exists j :: 0 <= j < |blocks| && blocks[j].Has(i);
      }
    }
    if forall i :: i in used ==> i in used' {
      assert used == used';
    }
  }

  lemma LiveMaps(maps: seq<MapInfo>, nextId: nat, base: nat, mem: Memory, contents: map<nat, seq<Byte>>)
    requires ValidMaps(maps, nextId, base, mem, contents)
    ensures forall m :: m in maps ==>
              m.id < nextId && m.id in contents &&
              (m.bounceUsed ==> |contents[m.id]| == m.bytes && Holds(mem, m.bounceAddress, contents[m.id]))
  {
    forall m | m in maps
      ensures m.id < nextId && m.id in contents
      ensures m.bounceUsed ==> |contents[m.id]| == m.bytes && Holds(mem, m.bounceAddress, contents[m.id])
    {
      assert ValidMap(m, base, mem, contents);
    }
  }

  /** One step changes a live bounce buffer by the device's write to it, if the step is one. */
  ghost predicate StepTracked(step: Step, maps: seq<MapInfo>, maps': seq<MapInfo>,
                              contents: map<nat, seq<Byte>>, contents': map<nat, seq<Byte>>)
  {
    forall m :: m in maps && m in maps' ==>
      && m.id in contents && m.id in contents'
      && (m.bounceUsed ==>
            && |contents[m.id]| == m.bytes
            && contents'[m.id] ==
               if WritesTo(m, step) then Patch(contents[m.id], step.offset, step.data) else contents[m.id])
  }

  /** The caller's buffer is ordinary memory, outside the pool. */
  predicate HostOutside(m: MapInfo, base: nat, totalPages: nat) {
    Disjoint(m.hostAddress, m.bytes, base, totalPages * PAGE_SIZE)
  }

  /** What the steps have unmapped is gone, if its host buffer is outside the pool. */
  ghost predicate Released(steps: seq<Step>, maps0: seq<MapInfo>, maps: seq<MapInfo>, base: nat, totalPages: nat) {
    forall m :: m in maps0 && m in maps && HostOutside(m, base, totalPages) ==> DoUnmap(m) !in steps
  }

  lemma ReleasedByStep(steps: seq<Step>, n: nat, maps0: seq<MapInfo>, maps: seq<MapInfo>, maps': seq<MapInfo>, base: nat, totalPages: nat)
    requires n < |steps| && Released(steps[..n], maps0, maps, base, totalPages)
    requires forall m :: m in maps' && m in maps0 ==> m in maps
    requires steps[n].DoUnmap? && HostOutside(steps[n].mapping, base, totalPages) ==> steps[n].mapping !in maps'
    ensures Released(steps[..n + 1], maps0, maps', base, totalPages)
  {
    assert steps[..n + 1] == steps[..n] + [steps[n]];
  }

  lemma OneStepMore(steps: seq<Step>, n: nat, maps0: seq<MapInfo>, maps: seq<MapInfo>, maps': seq<MapInfo>,
                    contents0: map<nat, seq<Byte>>, contents: map<nat, seq<Byte>>, contents': map<nat, seq<Byte>>, nextId0: nat)
    requires n < |steps|
    requires forall m :: m in maps0 ==> m.id < nextId0
    requires forall m :: m in maps0 && m in maps ==>
               && m.id in contents0 && m.id in contents
               && (m.bounceUsed ==> |contents0[m.id]| == m.bytes && contents[m.id] == AfterSteps(m, steps[..n], contents0[m.id]))
    requires StepTracked(steps[n], maps, maps', contents, contents')
    requires forall m :: m in maps' && m in maps0 ==> m in maps
    ensures forall m :: m in maps0 && m in maps' ==>
              && m.id in contents0 && m.id in contents'
              && (m.bounceUsed ==> |contents0[m.id]| == m.bytes && contents'[m.id] == AfterSteps(m, steps[..n + 1], contents0[m.id]))
  {
    assert steps[..n + 1][..n] == steps[..n];
  }

  lemma HoldsAfterCopy(mem: Memory, dst: nat, src: nat, data: seq<Byte>)
    requires Holds(mem, src, data)
    ensures Holds(CopyMem(mem, dst, src, |data|), dst, data)
  {
    forall k | 0 <= k < |data| ensures CopyMem(mem, dst, src, |data|)(dst + k) == data[k] {
      assert mem(src + k) == data[k];
    }
  }

  lemma WriteKeepsMaps(maps: seq<MapInfo>, j: nat, nextId: nat, base: nat, mem: Memory, mem': Memory,
                       contents: map<nat, seq<Byte>>, commons: seq<Block>, used: set<nat>, totalPages: nat,
                       offset: nat, data: seq<Byte>, now: seq<Byte>)
    requires ValidMaps(maps, nextId, base, mem, contents)
    requires Tiled(Blocks(maps) + commons, used, totalPages)
    requires j < |maps| && maps[j].bounceUsed && offset + |data| <= maps[j].bytes
    requires maps[j].id in contents && |contents[maps[j].id]| == maps[j].bytes
    requires mem' == Store(mem, maps[j].bounceAddress + offset, data)
    requires now == Patch(contents[maps[j].id], offset, data)
    ensures ValidMaps(maps, nextId, base, mem', contents[maps[j].id := now])
  {
    var m, live := maps[j], Blocks(maps) + commons;
    assert ValidMap(m, base, mem, contents);
    forall k | 0 <= k < |maps| ensures ValidMap(maps[k], base, mem', contents[m.id := now]) {
      assert ValidMap(maps[k], base, mem, contents);
      if k == j {
        forall i | 0 <= i < |now| ensures mem'(m.bounceAddress + i) == now[i] {
          assert mem(m.bounceAddress + i) == contents[m.id][i];
        }
      } else if maps[k].bounceUsed {
        assert live[k] == maps[k].block && live[j] == m.block;
        assert live[j].Apart(live[k]) || live[k].Apart(live[j]);
        forall i | 0 <= i < maps[k].bytes ensures mem'(maps[k].bounceAddress + i) == contents[maps[k].id][i] {
          assert mem(maps[k].bounceAddress + i) == contents[maps[k].id][i];
        }
      }
    }
  }
}
