/**
  The request/response engine of the Virtio Filesystem driver: scatter-gather
  lists are validated, mapped for DMA, submitted, filled in, unmapped, and the
  reply is checked.
*/
module ScatterGather {
  import opened Efi

  /** VIRTIO_FS_IO_VECTOR; `buffer` is the address of the data, or NULL, which is zero. */
  datatype IoVec = IoVec(
    buffer: nat,
    size: nat,
    mapped: bool,
    mappedAddress: nat,
    mapping: Option<nat>,
    transferred: nat)
  {
    /** The fields that validation and unmapping put back. */
    predicate IsUnmapped() {
      !mapped && mappedAddress == 0 && mapping == None
    }

    predicate SameOwner(v: IoVec) {
      buffer == v.buffer && size == v.size
    }

    predicate NonEmpty() {
      buffer != 0 && size > 0
    }
  }

  function Sum(s: seq<nat>): nat {
    if s == [] then 0 else Sum(s[..|s| - 1]) + s[|s| - 1]
  }

  function Sizes(v: seq<IoVec>): (r: seq<nat>)
    ensures |r| == |v|
  {
    seq(|v|, i requires 0 <= i < |v| => v[i].size)
  }

  function Transfers(v: seq<IoVec>): (r: seq<nat>)
    ensures |r| == |v|
  {
    seq(|v|, i requires 0 <= i < |v| => v[i].transferred)
  }

  lemma SumAppend(s: seq<nat>, k: nat)
    requires k < |s|
    ensures Sum(s[..k + 1]) == Sum(s[..k]) + s[k]
  {
    assert s[..k + 1][..k] == s[..k];
  }

  lemma {:induction false} SumMonotone(s: seq<nat>, k: nat)
    requires k <= |s|
    ensures Sum(s[..k]) <= Sum(s)
    decreases |s| - k
  {
    if k < |s| {
      SumAppend(s, k);
      SumMonotone(s, k + 1);
    } else {
      assert s[..k] == s;
    }
  }

  // ----- validation -----

  ghost predicate AllNonEmpty(v: seq<IoVec>) {
    forall i :: 0 <= i < |v| ==> v[i].NonEmpty()
  }

  ghost predicate AllUnmapped(v: seq<IoVec>) {
    forall i :: 0 <= i < |v| ==> v[i].IsUnmapped()
  }

  ghost predicate SameOwners(v: seq<IoVec>, w: seq<IoVec>) {
    |v| == |w| && forall i :: 0 <= i < |v| ==> v[i].SameOwner(w[i])
  }

  lemma SameOwnersSizes(v: seq<IoVec>, w: seq<IoVec>)
    requires SameOwners(v, w)
    ensures Sizes(v) == Sizes(w)
  {
  }

  /** A list that fits the queue after `needed` other descriptors. */
  ghost predicate Acceptable(v: seq<IoVec>, needed: nat, queueSize: nat) {
    && v != []
    && needed + |v| <= queueSize
    && AllNonEmpty(v)
    && Sum(Sizes(v)) <= MAX_UINT32
  }

  /** Vector k is the first empty one, and the sizes before it have not overflowed. */
  ghost predicate EmptyAt(v: seq<IoVec>, k: nat) {
    k < |v| && !v[k].NonEmpty() && AllNonEmpty(v[..k]) && Sum(Sizes(v)[..k]) <= MAX_UINT32
  }

  ghost predicate MeetsEmpty(v: seq<IoVec>) {
    exists k :: EmptyAt(v, k)
  }

  /** One list of VirtioFsSgListsValidate(). */
  method ValidateList(v: array<IoVec>, needed: nat, queueSize: nat)
    returns (status: Status, needed': nat, totalSize: nat)
    requires needed <= queueSize <= MAX_UINT16
    modifies v
    ensures SameOwners(v[..], old(v[..]))
    ensures status == Success || status == InvalidParameter || status == Unsupported
    ensures status == Success <==> Acceptable(old(v[..]), needed, queueSize)
    ensures status == InvalidParameter <==> v.Length == 0 || (needed + v.Length <= queueSize && MeetsEmpty(old(v[..])))
    ensures status == Success ==>
              && needed' == needed + v.Length <= queueSize
              && totalSize == Sum(Sizes(v[..]))
              && AllUnmapped(v[..])
              && forall i :: 0 <= i < v.Length ==> v[i].transferred == 0
  {
    needed', totalSize := needed, 0;
    if v.Length == 0 {
      return InvalidParameter, needed', totalSize;
    }
    if v.Length > MAX_UINT16 - needed' || needed' + v.Length > queueSize {
      return Unsupported, needed', totalSize;
    }
    needed' := needed' + v.Length;
    status, totalSize := ValidateVectors(v);
  }

  /** The loop over the vectors of one list. */
  method ValidateVectors(v: array<IoVec>) returns (status: Status, totalSize: nat)
    modifies v
    ensures SameOwners(v[..], old(v[..]))
    ensures status == Success || status == InvalidParameter || status == Unsupported
    ensures status == Success <==> AllNonEmpty(old(v[..])) && Sum(Sizes(old(v[..]))) <= MAX_UINT32
    ensures status == InvalidParameter <==> MeetsEmpty(old(v[..]))
    ensures status == Success ==>
              && totalSize == Sum(Sizes(v[..]))
              && AllUnmapped(v[..])
              && forall i :: 0 <= i < v.Length ==> v[i].transferred == 0
  {
    totalSize := 0;
    ghost var was := v[..];
    ghost var sizes := Sizes(was);
    var idx := 0;
    while idx < v.Length
      invariant 0 <= idx <= v.Length
      invariant totalSize == Sum(sizes[..idx]) <= MAX_UINT32
      invariant AllNonEmpty(was[..idx])
      invariant forall i :: 0 <= i < idx ==> v[i].SameOwner(was[i]) && v[i].IsUnmapped() && v[i].transferred == 0
      invariant forall i :: idx <= i < v.Length ==> v[i] == was[i]
    {
      var ioVec := v[idx];
      if ioVec.buffer == 0 || ioVec.size == 0 {
        assert EmptyAt(was, idx);
        return InvalidParameter, totalSize;
      }
      SumAppend(sizes, idx);
      if ioVec.size > MAX_UINT32 - totalSize {
        TooLarge(sizes, was, idx);
        return Unsupported, totalSize;
      }
      totalSize := totalSize + ioVec.size;
      v[idx] := ioVec.(mapped := false, mappedAddress := 0, mapping := None, transferred := 0);
      assert was[..idx + 1] == was[..idx] + [was[idx]];
      idx := idx + 1;
    }
    assert sizes[..idx] == sizes && was[..idx] == was;
    SameOwnersSizes(v[..], was);
    status := Success;
  }

  /** Once the running sum is too large, no later vector is looked at. */
  lemma TooLarge(sizes: seq<nat>, v: seq<IoVec>, idx: nat)
    requires sizes == Sizes(v) && idx < |v| && v[idx].NonEmpty()
    requires Sum(sizes[..idx + 1]) > MAX_UINT32
    requires AllNonEmpty(v[..idx])
    ensures Sum(sizes) > MAX_UINT32
    ensures forall k :: 0 <= k < |v| && !v[k].NonEmpty() ==> Sum(sizes[..k]) > MAX_UINT32
  {
    SumMonotone(sizes, idx + 1);
    assert forall i :: 0 <= i < idx ==> v[..idx][i] == v[i];
    forall k | 0 <= k < |v| && !v[k].NonEmpty() ensures Sum(sizes[..k]) > MAX_UINT32 {
      assert k > idx;
      SumMonotone(sizes[..k], idx + 1);
      assert sizes[..k][..idx + 1] == sizes[..idx + 1];
    }
  }

  // ----- mapping and unmapping -----

  function Reverse<T>(s: seq<T>): seq<T> {
    if s == [] then [] else Reverse(s[1..]) + [s[0]]
  }

  lemma {:induction false} ReverseConcat<T>(a: seq<T>, b: seq<T>)
    ensures Reverse(a + b) == Reverse(b) + Reverse(a)
    decreases |a|
  {
    if a == [] {
      assert a + b == b;
    } else {
      ReverseConcat(a[1..], b);
      assert (a + b)[1..] == a[1..] + b;
    }
  }

  /** Vectors 0 to |tokens| are mapped with these tokens, the rest are not mapped. */
  ghost predicate MappedWith(v: seq<IoVec>, tokens: seq<nat>) {
    && |tokens| <= |v|
    && (forall i :: 0 <= i < |tokens| ==> v[i].mapped && v[i].mapping == Some(tokens[i]))
    && (forall i :: |tokens| <= i < |v| ==> v[i].IsUnmapped())
  }

  /** What the device made of one descriptor chain: whether it went well, and the bytes it wrote, in buffer order. */
  datatype Flushed = Flushed(chain: seq<Descriptor>, ok: bool, data: seq<Byte>)

  /** What was mapped, where the device sees it, and whether it is going to write there. */
  datatype Mapping = Mapping(buffer: nat, address: nat, size: nat, deviceWrites: bool)

  /** The virtio device: the mappings it keeps, of which each has a token that is used once, and its logs. */
  class Device {
    var next: nat
    ghost var live: set<nat>            // mapped and not given back
    ghost var mapLog: seq<nat>          // every token handed out, in order
    ghost var mappings: map<nat, Mapping>  // and what each of them stands for
    ghost var unmapLog: seq<nat>        // every token given back, in order
    ghost var unmapFailures: nat        // how many of those went wrong
    ghost var flushLog: seq<Flushed>    // every chain submitted, in order

    ghost predicate Valid()
      reads this`next, this`live, this`mappings
    {
      (forall t :: t in live ==> t < next) && (forall t :: t in mappings ==> t < next)
    }

    constructor ()
      ensures Valid() && live == {} && mapLog == [] && mappings == map[] && unmapLog == [] && unmapFailures == 0 && flushLog == []
    {
      next, live, mapLog, mappings, unmapLog, unmapFailures, flushLog := 0, {}, [], map[], [], 0, [];
    }

    /** VirtioMapAllBytesInSharedBuffer(): the device may refuse. */
    method Map(buffer: nat, size: nat, deviceWrites: bool) returns (status: Status, address: nat, mapping: nat)
      requires Valid()
      modifies this`next, this`live, this`mapLog, this`mappings
      ensures Valid() && mapping == old(next)
      ensures status.IsError() ==> live == old(live) && mapLog == old(mapLog) && next == old(next) && mappings == old(mappings)
      ensures !status.IsError() ==>
                && mappings == old(mappings)[mapping := Mapping(buffer, address, size, deviceWrites)]
                && mapping !in old(live) && live == old(live) + {mapping} && mapLog == old(mapLog) + [mapping] && next == mapping + 1
    {
      status, address, mapping := *, *, next;
      if !status.IsError() {
        next := next + 1;
        live := live + {mapping};
        mapLog := mapLog + [mapping];
        mappings := mappings[mapping := Mapping(buffer, address, size, deviceWrites)];
      }
    }

    /** UnmapSharedBuffer(): only for a live mapping, which is gone even if a failure is reported. */
    method Unmap(mapping: nat) returns (status: Status)
      requires Valid() && mapping in live
      modifies this`live, this`unmapLog, this`unmapFailures
      ensures Valid()
      ensures live == old(live) - {mapping} && unmapLog == old(unmapLog) + [mapping]
      ensures unmapFailures == old(unmapFailures) + if status.IsError() then 1 else 0
    {
      status := *;
      live := live - {mapping};
      unmapLog := unmapLog + [mapping];
      unmapFailures := unmapFailures + if status.IsError() then 1 else 0;
    }

    /** VirtioFlush(): hand the chain over and wait for the device. */
    method Flush(chain: seq<Descriptor>) returns (status: Status, data: seq<Byte>)
      modifies this`flushLog
      ensures flushLog == old(flushLog) + [Flushed(chain, !status.IsError(), data)]
      ensures |data| <= MAX_UINT32
    {
      status, data := *, *;
      if |data| > MAX_UINT32 {
        data := [];
      }
      flushLog := flushLog + [Flushed(chain, !status.IsError(), data)];
    }
  }

  /** Consecutive tokens from `first` on, so all different. */
  ghost predicate Fresh(tokens: seq<nat>, first: nat) {
    forall i :: 0 <= i < |tokens| ==> tokens[i] == first + i
  }

  ghost predicate AllLive(tokens: seq<nat>, live: set<nat>) {
    forall i :: 0 <= i < |tokens| ==> tokens[i] in live
  }

  function Tokens(tokens: seq<nat>): set<nat> {
    set t | t in tokens
  }

  /** The vectors hold the addresses at which the device sees them. */
  ghost predicate Located(v: seq<IoVec>, tokens: seq<nat>, mappings: map<nat, Mapping>, deviceWrites: bool) {
    |tokens| <= |v| && forall i :: 0 <= i < |tokens| ==>
      tokens[i] in mappings && mappings[tokens[i]] == Mapping(v[i].buffer, v[i].mappedAddress, v[i].size, deviceWrites)
  }

  /** Map the vectors of one list in order, until the first failure. */
  method MapList(lib: Device, v: array<IoVec>, deviceWrites: bool) returns (status: Status, ghost tokens: seq<nat>)
    requires lib.Valid() && AllUnmapped(v[..])
    modifies lib`next, lib`live, lib`mapLog, lib`mappings, v
    ensures lib.Valid() && (forall t :: t in old(lib.mappings) ==> t in lib.mappings && lib.mappings[t] == old(lib.mappings)[t])
    ensures Located(v[..], tokens, lib.mappings, deviceWrites)
    ensures lib.live == old(lib.live) + Tokens(tokens) && lib.mapLog == old(lib.mapLog) + tokens
    ensures Fresh(tokens, old(lib.next)) && lib.next == old(lib.next) + |tokens|
    ensures SameOwners(v[..], old(v[..]))
    ensures !status.IsError() ==> |tokens| == v.Length
    ensures status.IsError() ==> |tokens| < v.Length
    ensures MappedWith(v[..], tokens)
  {
    status, tokens := Success, [];
    var idx := 0;
    while idx < v.Length
      invariant 0 <= idx <= v.Length
      invariant |tokens| == idx && !status.IsError()
      invariant lib.Valid() && (forall t :: t in old(lib.mappings) ==> t in lib.mappings && lib.mappings[t] == old(lib.mappings)[t])
      invariant Located(v[..], tokens, lib.mappings, deviceWrites)
      invariant lib.live == old(lib.live) + Tokens(tokens) && lib.mapLog == old(lib.mapLog) + tokens
      invariant Fresh(tokens, old(lib.next)) && lib.next == old(lib.next) + idx
      invariant forall i :: 0 <= i < idx ==> v[i].mapped && v[i].mapping == Some(tokens[i]) && v[i].SameOwner(old(v[i]))
      invariant forall i :: idx <= i < v.Length ==> v[i] == old(v[i]) && v[i].IsUnmapped()
    {
      var address, mapping;
      status, address, mapping := lib.Map(v[idx].buffer, v[idx].size, deviceWrites);
      if status.IsError() {
        return;
      }
      v[idx] := v[idx].(mapped := true, mappedAddress := address, mapping := Some(mapping));
      tokens := tokens + [mapping];
      idx := idx + 1;
    }
  }

  /** What has been given back of `tokens` when `left` of them are left. */
  ghost predicate GivenBack(tokens: seq<nat>, left: nat, live: set<nat>, live': set<nat>, log: seq<nat>, log': seq<nat>)
    requires left <= |tokens|
  {
    && live' == live - Tokens(tokens[left..])
    && log' == log + Reverse(tokens[left..])
  }

  lemma GiveBackOne(tokens: seq<nat>, left: nat, live: set<nat>, live': set<nat>, log: seq<nat>, log': seq<nat>, first: nat)
    requires left < |tokens| && Fresh(tokens, first) && AllLive(tokens, live)
    requires GivenBack(tokens, left + 1, live, live', log, log')
    ensures tokens[left] in live'
    ensures GivenBack(tokens, left, live, live' - {tokens[left]}, log, log' + [tokens[left]])
  {
    var rest := tokens[left..];
    assert rest[0] == tokens[left] && rest[1..] == tokens[left + 1..];
    assert Tokens(rest) == {tokens[left]} + Tokens(tokens[left + 1..]);
    assert tokens[left] !in Tokens(tokens[left + 1..]);
  }

  /** Vectors from `idx` on are unmapped, those before are as they were. */
  ghost predicate Unmapping(v: seq<IoVec>, was: seq<IoVec>, idx: nat)
    requires idx <= |was|
  {
    && |v| == |was|
    && (forall i :: 0 <= i < |v| ==> v[i].SameOwner(was[i]) && v[i].transferred == was[i].transferred)
    && (forall i :: 0 <= i < idx ==> v[i] == was[i])
    && (forall i :: idx <= i < |v| ==> v[i].IsUnmapped())
  }

  lemma UnmappingOne(v: seq<IoVec>, v': seq<IoVec>, was: seq<IoVec>, idx: nat)
    requires idx < |was| && Unmapping(v, was, idx + 1)
    requires v' == v[idx := Cleared(v[idx])]
    ensures Unmapping(v', was, idx)
  {
  }

  function Cleared(v: IoVec): IoVec {
    v.(mapped := false, mappedAddress := 0, mapping := None)
  }

  /** Unmap one vector, if it is mapped. The first failure is the one that is reported. */
  method UnmapVector(lib: Device, v: array<IoVec>, idx: nat, status: Status) returns (status': Status)
    requires lib.Valid() && idx < v.Length
    requires v[idx].mapped ==> v[idx].mapping.Some? && v[idx].mapping.value in lib.live
    requires !v[idx].mapped ==> v[idx].IsUnmapped()
    modifies lib`live, lib`unmapLog, lib`unmapFailures, v
    ensures lib.Valid() && lib.unmapFailures >= old(lib.unmapFailures)
    ensures v[..] == old(v[..])[idx := Cleared(old(v[idx]))]
    ensures if old(v[idx]).mapped then
              var t := old(v[idx]).mapping.value;
              lib.live == old(lib.live) - {t} && lib.unmapLog == old(lib.unmapLog) + [t]
            else
              lib.live == old(lib.live) && lib.unmapLog == old(lib.unmapLog)
    ensures status.IsError() ==> status' == status
    ensures !status.IsError() ==> (status'.IsError() <==> lib.unmapFailures > old(lib.unmapFailures))
  {
    status' := status;
    if !v[idx].mapped {
      return;
    }
    var unmapStatus := lib.Unmap(v[idx].mapping.value);
    v[idx] := Cleared(v[idx]);
    if !status'.IsError() && unmapStatus.IsError() {
      status' := unmapStatus;
    }
  }

  /** Unmap whatever is mapped in one list, last vector first; a failure is final but reported. */
  method UnmapList(lib: Device, v: array<IoVec>, status: Status, ghost tokens: seq<nat>, ghost first: nat)
    returns (status': Status)
    requires lib.Valid() && MappedWith(v[..], tokens) && Fresh(tokens, first) && AllLive(tokens, lib.live)
    modifies lib`live, lib`unmapLog, lib`unmapFailures, v
    ensures lib.Valid() && lib.unmapFailures >= old(lib.unmapFailures)
    ensures lib.live == old(lib.live) - Tokens(tokens) && lib.unmapLog == old(lib.unmapLog) + Reverse(tokens)
    ensures Unmapping(v[..], old(v[..]), 0)
    ensures status.IsError() ==> status' == status
    ensures !status.IsError() ==> (status'.IsError() <==> lib.unmapFailures > old(lib.unmapFailures))
  {
    status' := status;
    ghost var was := v[..];
    var idx := v.Length;
    ghost var left := |tokens|;
    assert tokens[left..] == [];
    while idx > 0
      invariant 0 <= idx <= v.Length
      invariant left == if idx < |tokens| then idx else |tokens|
      invariant lib.Valid() && lib.unmapFailures >= old(lib.unmapFailures)
      invariant GivenBack(tokens, left, old(lib.live), lib.live, old(lib.unmapLog), lib.unmapLog)
      invariant Unmapping(v[..], was, idx)
      invariant status.IsError() ==> status' == status
      invariant !status.IsError() ==> (status'.IsError() <==> lib.unmapFailures > old(lib.unmapFailures))
    {
      idx := idx - 1;
      ghost var mid := v[..];
      assert v[idx] == mid[idx] == was[idx];
      if idx < |tokens| {
        left := idx;
        GiveBackOne(tokens, left, old(lib.live), lib.live, old(lib.unmapLog), lib.unmapLog, first);
      }
      status' := UnmapVector(lib, v, idx, status');
      UnmappingOne(mid, v[..], was, idx);
    }
    assert tokens[0..] == tokens;
  }

  // ----- distributing the device's byte count -----

  /** How much of a buffer at offset `before` the first `count` bytes fill. */
  function Fill(count: nat, before: nat, size: nat): nat {
    if count <= before then 0 else Min(count - before, size)
  }

  /** The transfers of a list that received `count` bytes in buffer order. */
  ghost predicate FilledBy(v: seq<IoVec>, count: nat) {
    forall i :: 0 <= i < |v| ==> v[i].transferred == Fill(count, Sum(Sizes(v)[..i]), v[i].size)
  }

  /** The first `idx` vectors have got their part of the count. */
  ghost predicate FilledUpTo(v: seq<IoVec>, was: seq<IoVec>, count: nat, idx: nat)
    requires idx <= |was|
  {
    && |v| == |was|
    && (forall i :: 0 <= i < idx ==> v[i] == was[i].(transferred := Fill(count, Sum(Sizes(was)[..i]), was[i].size)))
    && (forall i :: idx <= i < |v| ==> v[i] == was[i])
  }

  lemma FillOne(v: seq<IoVec>, v': seq<IoVec>, was: seq<IoVec>, count: nat, idx: nat)
    requires idx < |was| && FilledUpTo(v, was, count, idx)
    requires v' == v[idx := was[idx].(transferred := Fill(count, Sum(Sizes(was)[..idx]), was[idx].size))]
    ensures FilledUpTo(v', was, count, idx + 1)
  {
  }

  lemma FilledAll(v: seq<IoVec>, was: seq<IoVec>, count: nat)
    requires FilledUpTo(v, was, count, |was|)
    ensures SameOwners(v, was) && FilledBy(v, count)
  {
    SameOwnersSizes(v, was);
  }

  method SetTransferred(v: array<IoVec>, idx: nat, transferred: nat)
    requires idx < v.Length
    modifies v
    ensures v[..] == old(v[..])[idx := old(v[idx]).(transferred := transferred)]
  {
    v[idx] := v[idx].(transferred := transferred);
  }

  method DistributeResponse(v: array<IoVec>, count: nat) returns (left: nat)
    requires count <= Sum(Sizes(v[..]))
    modifies v
    ensures FilledUpTo(v[..], old(v[..]), count, v.Length)
    ensures SameOwners(v[..], old(v[..])) && FilledBy(v[..], count)
    ensures left == 0
  {
    left := count;
    ghost var was, done := v[..], 0;
    var idx := 0;
    while idx < v.Length
      invariant 0 <= idx <= v.Length
      invariant done == Sum(Sizes(was)[..idx]) && left == if count <= done then 0 else count - done
      invariant FilledUpTo(v[..], was, count, idx)
    {
      ghost var mid := v[..];
      assert v[idx] == mid[idx] == was[idx];
      SumAppend(Sizes(was), idx);
      done := done + v[idx].size;
      var transferred := Min(left, v[idx].size);
      SetTransferred(v, idx, transferred);
      FillOne(mid, v[..], was, count, idx);
      left := left - transferred;
      idx := idx + 1;
    }
    assert Sizes(was)[..idx] == Sizes(was);
    FilledAll(v[..], was, count);
  }

  method DistributeRequest(v: array<IoVec>)
    modifies v
    ensures forall i :: 0 <= i < v.Length ==> v[i] == old(v[i]).(transferred := old(v[i]).size)
  {
    var idx := 0;
    while idx < v.Length
      invariant 0 <= idx <= v.Length
      invariant forall i :: 0 <= i < idx ==> v[i] == old(v[i]).(transferred := old(v[i]).size)
      invariant forall i :: idx <= i < v.Length ==> v[i] == old(v[i])
    {
      v[idx] := v[idx].(transferred := v[idx].size);
      idx := idx + 1;
    }
  }

  /** The transfers add up to the device's count. */
  lemma FillsAddUp(v: seq<IoVec>, count: nat)
    requires FilledBy(v, count) && count <= Sum(Sizes(v))
    ensures Sum(Transfers(v)) == count
  {
    FillsAddUpTo(v, count, |v|);
    assert Sizes(v)[..|v|] == Sizes(v);
    assert Transfers(v)[..|v|] == Transfers(v);
  }

  lemma {:induction false} FillsAddUpTo(v: seq<IoVec>, count: nat, k: nat)
    requires FilledBy(v, count) && k <= |v|
    ensures Sum(Transfers(v)[..k]) == Min(count, Sum(Sizes(v)[..k]))
    decreases k
  {
    if k > 0 {
      FillsAddUpTo(v, count, k - 1);
      SumAppend(Transfers(v), k - 1);
      SumAppend(Sizes(v), k - 1);
      assert v[k - 1].transferred == Fill(count, Sum(Sizes(v)[..k - 1]), v[k - 1].size);
    }
  }

  /** Greedy: a buffer receives data only after all the buffers before it are full. */
  lemma FillsAreGreedy(v: seq<IoVec>, count: nat, i: nat, j: nat)
    requires FilledBy(v, count)
    requires i < j < |v| && v[j].transferred > 0
    ensures v[i].transferred == v[i].size
  {
    var sizes := Sizes(v);
    SumAppend(sizes, i);
    SumMonotone(sizes[..j], i + 1);
    assert sizes[..j][..i + 1] == sizes[..i + 1];
    assert v[i].transferred == Fill(count, Sum(sizes[..i]), v[i].size);
  }

  // ----- the descriptor chain -----

  datatype Descriptor = Descriptor(address: nat, len: nat, deviceWrites: bool, next: bool)

  /** The descriptors of one list; `isLastList` is the test on the list number. */
  function Descriptors(v: seq<IoVec>, isResponse: bool): (r: seq<Descriptor>)
    ensures |r| == |v|
  {
    seq(|v|, i requires 0 <= i < |v| =>
      Descriptor(v[i].mappedAddress, v[i].size, isResponse, !(isResponse && i == |v| - 1)))
  }

  function Chain(request: seq<IoVec>, response: Option<seq<IoVec>>): seq<Descriptor> {
    Descriptors(request, false) + if response.Some? then Descriptors(response.value, true) else []
  }

  ghost predicate ProperlyTerminated(chain: seq<Descriptor>) {
    && chain != []
    && forall i :: 0 <= i < |chain| ==> (chain[i].next <==> i < |chain| - 1)
  }

  /**
    The last-descriptor test looks at the response list only: the chain ends
    properly exactly when the exchange has a response.
  */
  lemma ChainEndsWithResponse(request: seq<IoVec>, response: Option<seq<IoVec>>)
    requires request != [] && (response.Some? ==> response.value != [])
    ensures ProperlyTerminated(Chain(request, response)) <==> response.Some?
    ensures forall i :: 0 <= i < |Chain(request, response)| ==>
              (Chain(request, response)[i].deviceWrites <==> i >= |request|)
    ensures forall i :: 0 <= i < |Chain(request, response)| ==>
              Chain(request, response)[i].address == (request + if response.Some? then response.value else [])[i].mappedAddress
    ensures forall i :: 0 <= i < |Chain(request, response)| ==>
              Chain(request, response)[i].len == (request + if response.Some? then response.value else [])[i].size
  {
    var chain := Chain(request, response);
    if response.None? {
      assert chain[|chain| - 1].next;
    }
  }
}
