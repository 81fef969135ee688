/**
  Mode switching of the virtio GPU's graphics output protocol. The new host
  resource is built next to the current one, so that a failure at any step can
  be rolled back without disturbing the current mode.
*/
module GopMode {
  import opened Efi

  datatype Resolution = Resolution(width: nat, height: nat)

  const RESOLUTIONS: seq<Resolution> := [
    Resolution(640, 480), Resolution(800, 480), Resolution(800, 600), Resolution(832, 624),
    Resolution(960, 640), Resolution(1024, 600), Resolution(1024, 768), Resolution(1152, 864),
    Resolution(1152, 870), Resolution(1280, 720), Resolution(1280, 760), Resolution(1280, 768),
    Resolution(1280, 800), Resolution(1280, 960), Resolution(1280, 1024), Resolution(1360, 768),
    Resolution(1366, 768), Resolution(1400, 1050), Resolution(1440, 900), Resolution(1600, 900),
    Resolution(1600, 1200), Resolution(1680, 1050), Resolution(1920, 1080), Resolution(1920, 1200),
    Resolution(1920, 1440), Resolution(2000, 2000), Resolution(2048, 1536), Resolution(2048, 2048),
    Resolution(2560, 1440), Resolution(2560, 1600), Resolution(2560, 2048), Resolution(2800, 2100),
    Resolution(3200, 2400), Resolution(3840, 2160), Resolution(4096, 2160), Resolution(7680, 4320),
    Resolution(8192, 4320)
  ]

  const TABLE_MODES: nat := 37

  /** The graphics console needs at least 640 x 480. */
  ghost predicate Usable(r: Resolution) {
    r.width >= 640 && r.height >= 480
  }

  // ----- size of the backing store -----

  /** The product of the two UINT32 resolutions is a UINT32; the byte count is a UINTN. */
  ghost function BackingPages(r: Resolution): nat {
    SizeToPages((r.width * r.height) % TWO_TO_32 * 4)
  }

  /** The pages hold every pixel exactly when the product of the resolutions does not wrap, and then there is none too many. */
  lemma BackingCoversExactly(r: Resolution)
    ensures BackingPages(r) * PAGE_SIZE >= r.width * r.height * 4 <==> r.width * r.height < TWO_TO_32
    ensures r.width * r.height < TWO_TO_32 ==> BackingPages(r) * PAGE_SIZE < r.width * r.height * 4 + PAGE_SIZE
  {
    RoundTrip((r.width * r.height) % TWO_TO_32 * 4);
    Wrapped(r.width * r.height);
  }

  lemma RoundTrip(size: nat)
    ensures size <= SizeToPages(size) * PAGE_SIZE < size + PAGE_SIZE
  {
  }

  lemma Wrapped(n: nat)
    ensures n % TWO_TO_32 <= n
    ensures n >= TWO_TO_32 ==> n % TWO_TO_32 + TWO_TO_32 <= n
  {
  }

  /** A host that reports a 65536 x 65536 display is given no memory at all. */
  lemma BackingCanBeEmpty()
    ensures BackingPages(Resolution(65536, 65536)) == 0
  {
    assert 65536 * 65536 == TWO_TO_32;
  }

  datatype Outcome = Done(status: Status) | Hung

  // ----- the driver and the host -----

  /** What the driver knows about the current mode. */
  datatype GuestState = GuestState(
    resourceId: nat,
    backingStore: Option<nat>,
    numberOfPages: nat,
    mode: nat,
    info: Resolution)

  /** What the host knows, and which blocks of how many pages are allocated in the guest. */
  datatype HostState = HostState(
    resources: map<nat, Resolution>,
    attached: map<nat, nat>,
    scanout: nat,
    scanoutSize: Resolution,
    pages: map<nat, nat>)

  /** A driver with a mode: one resource, one block of pages attached to it, shown on the head. */
  ghost predicate Consistent(g: GuestState, h: HostState) {
    if g.resourceId == 0 then
      g.backingStore == None && h.resources == map[] && h.attached == map[] && h.pages == map[]
    else
      && 1 <= g.resourceId <= 2
      && g.backingStore.Some?
      && g.numberOfPages == BackingPages(g.info)
      && h.resources == map[g.resourceId := g.info]
      && h.attached == map[g.resourceId := g.backingStore.value]
      && h.pages == map[g.backingStore.value := BackingPages(g.info)]
      && h.scanout == g.resourceId
      && h.scanoutSize == g.info
  }

  class Gop {
    var g: GuestState
    var h: HostState
    var nextBlock: nat
    var initialized: bool
    var maxMode: nat
    var native: Resolution
    ghost var failures: nat      // commands that the host refused, and allocations that failed
    ghost var undoFailures: nat  // those among them that were to take something back

    ghost predicate Valid()
      reads this
    {
      && Consistent(g, h)
      && (forall b :: b in h.pages ==> b < nextBlock)
      && (g.resourceId != 0 ==> initialized)
      && (initialized ==> maxMode == TABLE_MODES || (maxMode == TABLE_MODES + 1 && Usable(native)))
    }

    constructor ()
      ensures Valid() && g.resourceId == 0
    {
      g := GuestState(0, None, 0, 0, Resolution(0, 0));
      h := HostState(map[], map[], 0, Resolution(0, 0), map[]);
      nextBlock := 0;
      initialized := false;
      maxMode := 0;
      native := Resolution(0, 0);
      failures, undoFailures := 0, 0;
    }

    // Host commands and page allocation: each may fail, and then has no effect but to be counted.

    method ResourceCreate2d(id: nat, r: Resolution) returns (status: Status)
      requires id != 0 && id !in h.resources
      modifies this`h, this`failures
      ensures h == if status.IsError() then old(h) else old(h).(resources := old(h).resources[id := r])
      ensures failures == old(failures) + if status.IsError() then 1 else 0
    {
      status := *;
      failures := failures + if status.IsError() then 1 else 0;
      if !status.IsError() {
        h := h.(resources := h.resources[id := r]);
      }
    }

    method AllocateBackingStore(pages: nat) returns (status: Status, block: nat)
      modifies this`h, this`nextBlock, this`failures
      ensures block == old(nextBlock) && nextBlock == block + 1
      ensures h == if status.IsError() then old(h) else old(h).(pages := old(h).pages[block := pages])
      ensures failures == old(failures) + if status.IsError() then 1 else 0
    {
      status := *;
      failures := failures + if status.IsError() then 1 else 0;
      block, nextBlock := nextBlock, nextBlock + 1;
      if !status.IsError() {
        h := h.(pages := h.pages[block := pages]);
      }
    }

    /** Pages may go back only when no resource refers to them. */
    method FreeBackingStore(block: nat, pages: nat)
      requires block in h.pages && h.pages[block] == pages
      requires forall id :: id in h.attached ==> h.attached[id] != block
      modifies this`h
      ensures h == old(h).(pages := old(h).pages - {block})
    {
      h := h.(pages := h.pages - {block});
    }

    method ResourceAttachBacking(id: nat, block: nat, pages: nat) returns (status: Status)
      requires id in h.resources && block in h.pages && h.pages[block] == pages
      modifies this`h, this`failures
      ensures h == if status.IsError() then old(h) else old(h).(attached := old(h).attached[id := block])
      ensures failures == old(failures) + if status.IsError() then 1 else 0
    {
      status := *;
      failures := failures + if status.IsError() then 1 else 0;
      if !status.IsError() {
        h := h.(attached := h.attached[id := block]);
      }
    }

    method ResourceDetachBacking(id: nat) returns (status: Status)
      requires id in h.attached
      modifies this`h, this`failures, this`undoFailures
      ensures h == if status.IsError() then old(h) else old(h).(attached := old(h).attached - {id})
      ensures failures == old(failures) + if status.IsError() then 1 else 0
      ensures undoFailures == old(undoFailures) + if status.IsError() then 1 else 0
    {
      status := *;
      failures := failures + if status.IsError() then 1 else 0;
      undoFailures := undoFailures + if status.IsError() then 1 else 0;
      if !status.IsError() {
        h := h.(attached := h.attached - {id});
      }
    }

    method ResourceUnref(id: nat) returns (status: Status)
      requires id in h.resources && id !in h.attached
      modifies this`h, this`failures, this`undoFailures
      ensures h == if status.IsError() then old(h) else old(h).(resources := old(h).resources - {id})
      ensures failures == old(failures) + if status.IsError() then 1 else 0
      ensures undoFailures == old(undoFailures) + if status.IsError() then 1 else 0
    {
      status := *;
      failures := failures + if status.IsError() then 1 else 0;
      undoFailures := undoFailures + if status.IsError() then 1 else 0;
      if !status.IsError() {
        h := h.(resources := h.resources - {id});
      }
    }

    /** To go back to the resource in use is to take a switch back. */
    method SetScanout(r: Resolution, id: nat) returns (status: Status)
      requires id != 0 ==> id in h.resources
      modifies this`h, this`failures, this`undoFailures
      ensures h == if status.IsError() then old(h) else old(h).(scanout := id, scanoutSize := r)
      ensures failures == old(failures) + if status.IsError() then 1 else 0
      ensures undoFailures == old(undoFailures) + if status.IsError() && id == g.resourceId then 1 else 0
    {
      status := *;
      failures := failures + if status.IsError() then 1 else 0;
      undoFailures := undoFailures + if status.IsError() && id == g.resourceId then 1 else 0;
      if !status.IsError() {
        h := h.(scanout := id, scanoutSize := r);
      }
    }

    method ResourceFlush(id: nat) returns (status: Status)
      requires id in h.resources
      modifies this`failures
      ensures failures == old(failures) + if status.IsError() then 1 else 0
    {
      status := *;
      failures := failures + if status.IsError() then 1 else 0;
    }

    /** GopInitialize(): the host's display size becomes an extra mode if it is usable and new. */
    method Initialize(displayInfo: Option<Resolution>)
      modifies this`initialized, this`maxMode, this`native
      ensures initialized
      ensures var extra := displayInfo.Some? && Usable(displayInfo.value) && displayInfo.value !in RESOLUTIONS;
              maxMode == TABLE_MODES + if extra then 1 else 0
      ensures maxMode > TABLE_MODES ==> displayInfo == Some(native) && Usable(native)
    {
      initialized := true;
      maxMode := TABLE_MODES;
      if displayInfo == None || displayInfo.value.width < 640 || displayInfo.value.height < 480 {
        return;
      }
      native := displayInfo.value;
      var index := 0;
      while index < TABLE_MODES
        invariant 0 <= index <= TABLE_MODES
        invariant forall i :: 0 <= i < index ==> RESOLUTIONS[i] != native
      {
        if RESOLUTIONS[index] == native {
          return;
        }
        index := index + 1;
      }
      maxMode := maxMode + 1;
    }

    /** GopQueryMode(). */
    method QueryMode(modeNumber: nat) returns (status: Status, r: Resolution)
      requires Valid() && initialized
      ensures status == if modeNumber >= maxMode then InvalidParameter else Success
      ensures status == Success ==> r == ModeResolution(modeNumber)
    {
      if modeNumber >= maxMode {
        return InvalidParameter, Resolution(0, 0);
      }
      if modeNumber < TABLE_MODES {
        return Success, RESOLUTIONS[modeNumber];
      }
      return Success, native;
    }

    function ModeResolution(modeNumber: nat): Resolution
      reads this`native
    {
      if modeNumber < TABLE_MODES then RESOLUTIONS[modeNumber] else native
    }

    /** Every mode on offer is at least 640 x 480, and every mode of the table gets enough memory. */
    lemma ModesAreUsable(modeNumber: nat)
      requires Valid() && initialized && modeNumber < maxMode
      ensures var r := ModeResolution(modeNumber);
              && Usable(r)
              && (modeNumber < TABLE_MODES ==> BackingPages(r) * PAGE_SIZE >= r.width * r.height * 4)
    {
      if modeNumber < TABLE_MODES {
        TableIsUsable(modeNumber);
        BackingCoversExactly(ModeResolution(modeNumber));
      }
    }

    /** In every mode, the attached memory has as many pages as the pixels need, unless the 32-bit product wraps. */
    lemma DisplayHasItsMemory()
      requires Valid() && g.resourceId != 0
      ensures g.resourceId in h.attached && h.attached[g.resourceId] in h.pages
      ensures var pixels, size := g.info.width * g.info.height * 4, h.pages[h.attached[g.resourceId]] * PAGE_SIZE;
              g.info.width * g.info.height < TWO_TO_32 <==> pixels <= size < pixels + PAGE_SIZE
    {
      BackingCoversExactly(g.info);
    }

    /** ReleaseGopResources(): gives up the current resource; the host may hold others. */
    method ReleaseResources(disableHead: bool) returns (hung: bool)
      requires 1 <= g.resourceId && g.backingStore.Some?
      requires g.resourceId in h.resources && g.resourceId in h.attached
      requires h.attached[g.resourceId] == g.backingStore.value
      requires g.backingStore.value in h.pages && h.pages[g.backingStore.value] == g.numberOfPages
      requires forall id :: id in h.attached && id != g.resourceId ==> h.attached[id] != g.backingStore.value
      modifies this`g, this`h, this`failures, this`undoFailures
      ensures hung <==> undoFailures > old(undoFailures)
      ensures failures >= old(failures) && undoFailures >= old(undoFailures)
      ensures hung ==> failures > old(failures)
      ensures !disableHead && !hung ==> failures == old(failures)
      ensures !hung ==>
                && g == old(g).(resourceId := 0, backingStore := None, numberOfPages := 0)
                && h.resources == old(h).resources - {old(g).resourceId}
                && h.attached == old(h).attached - {old(g).resourceId}
                && h.pages == old(h).pages - {old(g).backingStore.value}
                && (!disableHead ==> h.scanout == old(h).scanout && h.scanoutSize == old(h).scanoutSize)
                && (disableHead && failures == old(failures) ==> h.scanout == 0 && h.scanoutSize == Resolution(0, 0))
    {
      if disableHead {
        // The host may refuse this; the driver goes on regardless.
        var _ := SetScanout(Resolution(0, 0), 0);
      }
      var status := ResourceDetachBacking(g.resourceId);
      if status.IsError() {
        return true;
      }
      FreeBackingStore(g.backingStore.value, g.numberOfPages);
      g := g.(backingStore := None, numberOfPages := 0);
      status := ResourceUnref(g.resourceId);
      if status.IsError() {
        return true;
      }
      g := g.(resourceId := 0);
      return false;
    }

    /** The common tail of the error paths: from which step on the new resource must be undone. */
    method RollBack(newId: nat, block: Option<nat>, pages: nat, attached: bool) returns (hung: bool)
      requires newId in h.resources
      requires attached ==> block.Some? && newId in h.attached
      requires !attached ==> newId !in h.attached
      requires block.Some? ==> block.value in h.pages && h.pages[block.value] == pages && forall id :: id in h.attached && id != newId ==> h.attached[id] != block.value
      modifies this`h, this`failures, this`undoFailures
      ensures hung <==> undoFailures > old(undoFailures)
      ensures failures >= old(failures) && undoFailures >= old(undoFailures)
      ensures !hung ==>
                h == old(h).(resources := old(h).resources - {newId},
                             attached := old(h).attached - {newId},
                             pages := if block.Some? then old(h).pages - {block.value} else old(h).pages)
    {
      if attached {
        var status := ResourceDetachBacking(newId);
        if status.IsError() {
          return true;
        }
      }
      assert h.attached == old(h).attached - {newId};
      if block.Some? {
        FreeBackingStore(block.value, pages);
      }
      var status2 := ResourceUnref(newId);
      return status2.IsError();
    }

    /** Closing the head: nothing is left on the host and no pages stay allocated. */
    method Uninit() returns (hung: bool)
      requires Valid() && g.resourceId != 0
      modifies this`g, this`h, this`failures, this`undoFailures
      ensures hung <==> undoFailures > old(undoFailures)
      ensures !hung ==> Valid() && h.resources == map[] && h.attached == map[] && h.pages == map[]
      ensures failures == old(failures) ==> !hung && h.scanout == 0 && h.scanoutSize == Resolution(0, 0)
    {
      hung := ReleaseResources(true);
    }

    /**
      GopSetMode(): commits the new mode or leaves everything as it was, unless a
      destruction step fails, in which case the driver hangs.
    */
    method SetMode(modeNumber: nat, displayInfo: Option<Resolution>) returns (outcome: Outcome)
      requires Valid()
      modifies this
      ensures outcome != Hung ==> Valid()
      ensures outcome != Hung && outcome.status == Success ==>
                g.info == if modeNumber < TABLE_MODES then RESOLUTIONS[modeNumber] else native
      ensures outcome != Hung && outcome.status == Success ==>
                && modeNumber < maxMode
                && g.resourceId == (if old(g).resourceId == 0 then 1 else 3 - old(g).resourceId)
                && g.mode == modeNumber && g.info == ModeResolution(modeNumber)
                && (old(g).backingStore.Some? ==> g.backingStore != old(g).backingStore)
      ensures outcome != Hung && outcome.status != Success ==> g == old(g) && h == old(h)
      ensures outcome == Hung <==> undoFailures > old(undoFailures)
      ensures failures == old(failures) && modeNumber < maxMode ==> outcome == Done(Success)
    {
      var status, r := FindMode(modeNumber, displayInfo);
      if status != Success {
        return Done(status);
      }
      outcome := SwitchTo(modeNumber, r);
    }

    /** The resolution of a mode; the first call sets the modes up. */
    method FindMode(modeNumber: nat, displayInfo: Option<Resolution>) returns (status: Status, r: Resolution)
      requires Valid()
      modifies this`initialized, this`maxMode, this`native
      ensures Valid() && initialized
      ensures status == if modeNumber >= maxMode then InvalidParameter else Success
      ensures status == Success ==> r == ModeResolution(modeNumber)
      ensures status == Success ==> r == if modeNumber < TABLE_MODES then RESOLUTIONS[modeNumber] else native
    {
      if !initialized {
        Initialize(displayInfo);
      }
      status, r := QueryMode(modeNumber);
    }

    method SwitchTo(modeNumber: nat, r: Resolution) returns (outcome: Outcome)
      requires Consistent(g, h) && forall b :: b in h.pages ==> b < nextBlock
      modifies this`g, this`h, this`nextBlock, this`failures, this`undoFailures
      ensures outcome != Hung ==> Consistent(g, h) && forall b :: b in h.pages ==> b < nextBlock
      ensures outcome != Hung && outcome.status == Success ==>
                && g.resourceId == (if old(g).resourceId == 0 then 1 else 3 - old(g).resourceId)
                && g.mode == modeNumber && g.info == r
                && (old(g).backingStore.Some? ==> g.backingStore != old(g).backingStore)
      ensures outcome != Hung && outcome.status != Success ==> g == old(g) && h == old(h)
      ensures outcome == Hung <==> undoFailures > old(undoFailures)
      ensures failures >= old(failures) && (failures == old(failures) ==> outcome == Done(Success))
    {
      var newId := if g.resourceId == 0 then 1 else 3 - g.resourceId;
      var status := ResourceCreate2d(newId, r);
      if status.IsError() {
        return Done(status);
      }
      outcome := BuildAndSwitch(modeNumber, newId, r, old(h));
    }

    /** The byte count is a UINTN, the product of the resolutions a UINT32. */
    method PagesFor(r: Resolution) returns (pages: nat)
      ensures pages == BackingPages(r)
    {
      var bytes := (r.width * r.height) % TWO_TO_32 * 4;
      pages := SizeToPages(bytes);
    }

    /** The rest of SetMode(), once the new resource exists; `h0` is the host before that. */
    method BuildAndSwitch(modeNumber: nat, newId: nat, r: Resolution, ghost h0: HostState) returns (outcome: Outcome)
      requires Consistent(g, h0) && h == h0.(resources := h0.resources[newId := r])
      requires newId == (if g.resourceId == 0 then 1 else 3 - g.resourceId)
      requires forall b :: b in h0.pages ==> b < nextBlock
      modifies this`g, this`h, this`nextBlock, this`failures, this`undoFailures
      ensures outcome != Hung ==> Consistent(g, h) && forall b :: b in h.pages ==> b < nextBlock
      ensures outcome != Hung && outcome.status == Success ==>
                && g.resourceId == newId && g.mode == modeNumber && g.info == r
                && (old(g).backingStore.Some? ==> g.backingStore != old(g).backingStore)
      ensures outcome != Hung && outcome.status != Success ==> g == old(g) && h == h0
      ensures outcome == Hung <==> undoFailures > old(undoFailures)
      ensures failures >= old(failures) && (failures == old(failures) ==> outcome == Done(Success))
    {
      var pages := PagesFor(r);
      var block;
      assert forall id :: id in h0.attached ==> h0.attached[id] in h0.pages;
      outcome, block := Build(newId, r, pages, h0);
      if outcome != Done(Success) {
        return;
      }
      outcome := Commit(modeNumber, newId, r, block, pages, h0);
    }

    /** Give the new resource its memory and show it, or take it away again. */
    method Build(newId: nat, r: Resolution, pages: nat, ghost h0: HostState) returns (outcome: Outcome, block: nat)
      requires newId !in h0.resources && newId !in h0.attached && newId != g.resourceId && newId != 0
      requires h == h0.(resources := h0.resources[newId := r])
      requires forall b :: b in h0.pages ==> b < nextBlock
      requires forall id :: id in h0.attached ==> h0.attached[id] in h0.pages
      modifies this`h, this`nextBlock, this`failures, this`undoFailures
      ensures block == old(nextBlock) && nextBlock == block + 1
      ensures outcome != Hung ==> h == if outcome.status == Success then Switching(h0, newId, r, block, pages) else h0
      ensures outcome == Hung <==> undoFailures > old(undoFailures)
      ensures failures >= old(failures) && undoFailures >= old(undoFailures) && (failures == old(failures) <==> outcome == Done(Success))
    {
      var hung;
      var status;
      status, block := AllocateBackingStore(pages);
      Undone(h0, newId, r, block, pages);
      if status.IsError() {
        hung := RollBack(newId, None, pages, false);
        return if hung then Hung else Done(status), block;
      }
      status := ResourceAttachBacking(newId, block, pages);
      if status.IsError() {
        hung := RollBack(newId, Some(block), pages, false);
        return if hung then Hung else Done(status), block;
      }
      status := SetScanout(r, newId);
      if status.IsError() {
        hung := RollBack(newId, Some(block), pages, true);
        return if hung then Hung else Done(status), block;
      }
      return Done(Success), block;
    }

    /** The end of SetMode(), once the head shows the new resource: the old one goes, or the switch is taken back. */
    method Commit(modeNumber: nat, newId: nat, r: Resolution, block: nat, pages: nat, ghost h0: HostState) returns (outcome: Outcome)
      requires Consistent(g, h0) && block !in h0.pages && pages == BackingPages(r)
      requires newId == (if g.resourceId == 0 then 1 else 3 - g.resourceId)
      requires h == Switching(h0, newId, r, block, pages)
      modifies this`g, this`h, this`failures, this`undoFailures
      ensures outcome != Hung ==> Consistent(g, h) && h.pages.Keys <= h0.pages.Keys + {block}
      ensures outcome != Hung && outcome.status == Success ==>
                && g.resourceId == newId && g.mode == modeNumber && g.info == r
                && g.backingStore == Some(block)
      ensures outcome != Hung && outcome.status != Success ==> g == old(g) && h == h0
      ensures outcome == Hung <==> undoFailures > old(undoFailures)
      ensures failures >= old(failures) && (failures == old(failures) ==> outcome == Done(Success))
    {
      Undone(h0, newId, r, block, pages);
      var hung;
      if g.resourceId != 0 {
        var status := ResourceFlush(newId);
        if status.IsError() {
          // Flip the head back to the current resource.
          var status2 := SetScanout(g.info, g.resourceId);
          if status2.IsError() {
            return Hung;
          }
          hung := RollBack(newId, Some(block), pages, true);
          return if hung then Hung else Done(status);
        }
        hung := ReleaseResources(false);
        if hung {
          return Hung;
        }
      }
      assert g.resourceId == 0 && g.backingStore == None;
      Switched(h0, old(g), newId, r, block);
      g := GuestState(newId, Some(block), pages, modeNumber, r);
      return Done(Success);
    }
  }

  /** The host in the middle of a switch: the new resource is there and shown, beside the old one. */
  ghost function Switching(h0: HostState, newId: nat, r: Resolution, block: nat, pages: nat): HostState {
    HostState(h0.resources[newId := r], h0.attached[newId := block], newId, r, h0.pages[block := pages])
  }

  /** Removing what was added gives the host back as it was. */
  lemma Undone(h0: HostState, newId: nat, r: Resolution, block: nat, pages: nat)
    requires newId !in h0.resources && newId !in h0.attached
    requires block !in h0.pages
    ensures h0.resources[newId := r] - {newId} == h0.resources
    ensures h0.attached[newId := block] - {newId} == h0.attached
    ensures h0.attached - {newId} == h0.attached
    ensures h0.pages[block := pages] - {block} == h0.pages
  {
  }

  lemma Switched(h0: HostState, g0: GuestState, newId: nat, r: Resolution, block: nat)
    requires Consistent(g0, h0) && block !in h0.pages
    requires newId == (if g0.resourceId == 0 then 1 else 3 - g0.resourceId)
    ensures g0.resourceId == 0 ==> h0.resources[newId := r] == map[newId := r] && h0.attached[newId := block] == map[newId := block]
    ensures g0.resourceId != 0 ==>
              && h0.resources[newId := r] - {g0.resourceId} == map[newId := r]
              && h0.attached[newId := block] - {g0.resourceId} == map[newId := block]
              && h0.pages[block := BackingPages(r)] - {g0.backingStore.value} == map[block := BackingPages(r)]
  {
  }

  lemma TableIsUsable(i: nat)
    requires i < TABLE_MODES
    ensures RESOLUTIONS[i].width >= 640 && RESOLUTIONS[i].height >= 480
    ensures RESOLUTIONS[i].width * RESOLUTIONS[i].height < TWO_TO_32
    ensures |RESOLUTIONS| == TABLE_MODES
  {
  }
}
