/**
  Complete FUSE exchanges on top of the scatter-gather engine: the submit
  function with all its exits, request numbering, the reply check, and the
  READ / READDIRPLUS wrapper that uses all of them.
*/
module FuseExchange {
  import opened Efi
  import opened ScatterGather

  ghost function Contents(v: array?<IoVec>): seq<IoVec>
    reads v
  {
    if v == null then [] else v[..]
  }

  /** Map the request, then the response. */
  method MapAll(lib: Device, req: array<IoVec>, resp: array?<IoVec>)
    returns (status: Status, ghost t0: seq<nat>, ghost t1: seq<nat>)
    requires lib.Valid() && req != resp
    requires AllUnmapped(req[..]) && AllUnmapped(Contents(resp))
    modifies lib`next, lib`live, lib`mapLog, lib`mappings, req, resp
    ensures lib.Valid()
    ensures Located(req[..], t0, lib.mappings, false) && Located(Contents(resp), t1, lib.mappings, true)
    ensures lib.live == old(lib.live) + Tokens(t0) + Tokens(t1) && lib.mapLog == old(lib.mapLog) + (t0 + t1)
    ensures Fresh(t0, old(lib.next)) && Fresh(t1, old(lib.next) + |t0|)
    ensures SameOwners(req[..], old(req[..])) && SameOwners(Contents(resp), old(Contents(resp)))
    ensures MappedWith(req[..], t0) && MappedWith(Contents(resp), t1)
    ensures !status.IsError() ==> |t0| == req.Length && |t1| == |Contents(resp)|
    ensures status.IsError() ==> |t0| + |t1| < req.Length + |Contents(resp)| && (t1 != [] ==> |t0| == req.Length)
  {
    t1 := [];
    status, t0 := MapList(lib, req, false);
    if !status.IsError() && resp != null {
      status, t1 := MapList(lib, resp, true);
    }
  }

  /** The descriptor chain, one VirtioAppendDesc() per vector. */
  method ComposeChain(req: array<IoVec>, resp: array?<IoVec>) returns (chain: seq<Descriptor>)
    ensures chain == Chain(req[..], if resp == null then None else Some(resp[..]))
  {
    chain := AppendDescriptors([], req, false);
    if resp != null {
      chain := AppendDescriptors(chain, resp, true);
    } else {
      assert chain + [] == chain;
    }
  }

  method AppendDescriptors(chain: seq<Descriptor>, v: array<IoVec>, isResponse: bool) returns (chain': seq<Descriptor>)
    ensures chain' == chain + Descriptors(v[..], isResponse)
  {
    chain' := chain;
    var idx := 0;
    while idx < v.Length
      invariant 0 <= idx <= v.Length
      invariant chain' == chain + Descriptors(v[..], isResponse)[..idx]
    {
      var next := true;
      if isResponse && idx == v.Length - 1 {
        next := false;
      }
      chain' := chain' + [Descriptor(v[idx].mappedAddress, v[idx].size, isResponse, next)];
      idx := idx + 1;
    }
  }

  /** Only the transfers have changed, so what was mapped still is. */
  ghost predicate OnlyTransfers(v: seq<IoVec>, was: seq<IoVec>) {
    |v| == |was| && forall i :: 0 <= i < |v| ==> v[i] == was[i].(transferred := v[i].transferred)
  }

  lemma StillMapped(v: seq<IoVec>, was: seq<IoVec>, tokens: seq<nat>)
    requires OnlyTransfers(v, was)
    ensures SameOwners(v, was)
    ensures MappedWith(was, tokens) ==> MappedWith(v, tokens)
  {
  }

  /** All of the request went out, and the response took what the device wrote. */
  method Distribute(req: array<IoVec>, resp: array?<IoVec>, count: nat)
    requires req != resp
    requires count <= Sum(Sizes(Contents(resp)))
    modifies req, resp
    ensures OnlyTransfers(req[..], old(req[..])) && OnlyTransfers(Contents(resp), old(Contents(resp)))
    ensures forall i :: 0 <= i < req.Length ==> req[i].transferred == req[i].size
    ensures FilledBy(Contents(resp), count)
  {
    DistributeRequest(req);
    var left := count;
    if resp != null {
      left := DistributeResponse(resp, count);
    }
    assert left == 0;
  }

  /** The chain has a descriptor for each vector, request before response, and ends properly exactly if there is a response. */
  ghost predicate Describes(chain: seq<Descriptor>, req: seq<IoVec>, resp: seq<IoVec>, hasResponse: bool) {
    && |chain| == |req| + |resp|
    && (ProperlyTerminated(chain) <==> hasResponse)
    && (forall i :: 0 <= i < |chain| ==> (chain[i].deviceWrites <==> i >= |req|))
    && (forall i :: 0 <= i < |chain| ==> chain[i].len == (req + resp)[i].size)
  }

  /** Descriptor i is where the device sees buffer i, has its length and its direction. */
  ghost predicate Addressed(chain: seq<Descriptor>, v: seq<IoVec>, tokens: seq<nat>, mappings: map<nat, Mapping>) {
    |tokens| == |v| == |chain| && forall i :: 0 <= i < |chain| ==>
      tokens[i] in mappings && mappings[tokens[i]] == Mapping(v[i].buffer, chain[i].address, chain[i].len, chain[i].deviceWrites)
  }

  lemma AddressedOwners(chain: seq<Descriptor>, req: seq<IoVec>, resp: seq<IoVec>, req': seq<IoVec>, resp': seq<IoVec>,
                        tokens: seq<nat>, mappings: map<nat, Mapping>)
    requires SameOwners(req, req') && SameOwners(resp, resp') && Addressed(chain, req + resp, tokens, mappings)
    ensures Addressed(chain, req' + resp', tokens, mappings)
  {
  }

  /** The chain of vectors that are where they should be. */
  ghost predicate OfVectors(chain: seq<Descriptor>, req: seq<IoVec>, resp: seq<IoVec>) {
    |chain| == |req| + |resp| && forall i :: 0 <= i < |chain| ==> chain[i].address == (req + resp)[i].mappedAddress
  }

  lemma ChainIsAddressed(chain: seq<Descriptor>, req: seq<IoVec>, resp: seq<IoVec>, hasResponse: bool,
                         t0: seq<nat>, t1: seq<nat>, mappings: map<nat, Mapping>)
    requires OfVectors(chain, req, resp) && Describes(chain, req, resp, hasResponse)
    requires |t0| == |req| && |t1| == |resp| && Located(req, t0, mappings, false) && Located(resp, t1, mappings, true)
    ensures Addressed(chain, req + resp, t0 + t1, mappings)
  {
    forall i | 0 <= i < |chain|
      ensures (t0 + t1)[i] in mappings
      ensures mappings[(t0 + t1)[i]] == Mapping((req + resp)[i].buffer, chain[i].address, chain[i].len, chain[i].deviceWrites)
    {
      var v, t := req + resp, t0 + t1;
      if i < |req| {
        assert v[i] == req[i] && t[i] == t0[i];
      } else {
        assert v[i] == resp[i - |req|] && t[i] == t1[i - |req|];
      }
    }
  }

  lemma DescribesOwners(chain: seq<Descriptor>, req: seq<IoVec>, resp: seq<IoVec>, hasResponse: bool, req': seq<IoVec>, resp': seq<IoVec>)
    requires SameOwners(req, req') && SameOwners(resp, resp')
    ensures Describes(chain, req, resp, hasResponse) ==> Describes(chain, req', resp', hasResponse)
  {
  }

  /** What a submission that succeeded has transferred. */
  ghost predicate Transferred(req: seq<IoVec>, resp: seq<IoVec>, count: nat) {
    && (forall i :: 0 <= i < |req| ==> req[i].transferred == req[i].size)
    && FilledBy(resp, count)
  }

  /** Submit the chain and account for what was transferred. */
  method Transfer(lib: Device, req: array<IoVec>, resp: array?<IoVec>, totalSize: nat)
    returns (status: Status, data: seq<Byte>, ghost f: Flushed)
    requires req != resp
    requires req.Length > 0 && (resp != null ==> resp.Length > 0)
    requires totalSize == Sum(Sizes(Contents(resp)))
    modifies lib`flushLog, req, resp
    ensures OnlyTransfers(req[..], old(req[..])) && OnlyTransfers(Contents(resp), old(Contents(resp)))
    ensures lib.flushLog == old(lib.flushLog) + [f] && f.data == data && |data| <= MAX_UINT32
    ensures Describes(f.chain, old(req[..]), old(Contents(resp)), resp != null)
    ensures OfVectors(f.chain, old(req[..]), old(Contents(resp)))
    ensures !status.IsError() <==> f.ok && |data| <= totalSize
    ensures f.ok && |data| > totalSize ==> status == DeviceError
    ensures !status.IsError() ==> Transferred(req[..], Contents(resp), |data|)
  {
    var chain := ComposeChain(req, resp);
    ChainEndsWithResponse(req[..], if resp == null then None else Some(resp[..]));
    status, data := lib.Flush(chain);
    f := Flushed(chain, !status.IsError(), data);
    if status.IsError() {
      return;
    }
    var permitted := if resp == null then 0 else totalSize;
    if |data| > permitted {
      return DeviceError, data, f;
    }
    Distribute(req, resp, |data|);
    status := Success;
  }

  /** Both lists, last vector first, on the success path and on every error path. */
  method UnmapAll(lib: Device, req: array<IoVec>, resp: array?<IoVec>, status: Status,
                  ghost t0: seq<nat>, ghost t1: seq<nat>, ghost first: nat)
    returns (status': Status)
    requires lib.Valid() && req != resp
    requires MappedWith(req[..], t0) && MappedWith(Contents(resp), t1)
    requires Fresh(t0, first) && Fresh(t1, first + |t0|) && AllLive(t0, lib.live) && AllLive(t1, lib.live)
    modifies lib`live, lib`unmapLog, lib`unmapFailures, req, resp
    ensures lib.Valid() && lib.unmapFailures >= old(lib.unmapFailures)
    ensures lib.live == old(lib.live) - Tokens(t0) - Tokens(t1) && lib.unmapLog == old(lib.unmapLog) + Reverse(t0 + t1)
    ensures Unmapping(req[..], old(req[..]), 0) && Unmapping(Contents(resp), old(Contents(resp)), 0)
    ensures status.IsError() ==> status' == status
    ensures !status.IsError() ==> (status'.IsError() <==> lib.unmapFailures > old(lib.unmapFailures))
  {
    status' := status;
    if resp != null {
      status' := UnmapList(lib, resp, status', t1, first + |t0|);
    }
    status' := UnmapList(lib, req, status', t0, first);
    ReverseConcat(t0, t1);
  }

  /** With all the new tokens given back, the live mappings are those of before. */
  lemma LiveAgain(live: set<nat>, t0: seq<nat>, t1: seq<nat>, first: nat)
    requires forall t :: t in live ==> t < first
    requires Fresh(t0, first) && Fresh(t1, first + |t0|)
    ensures live + Tokens(t0) + Tokens(t1) - Tokens(t0) - Tokens(t1) == live
    ensures AllLive(t0, live + Tokens(t0) + Tokens(t1)) && AllLive(t1, live + Tokens(t0) + Tokens(t1))
  {
  }

  /** Map everything and, if that worked, transfer; `sent` is what was submitted. */
  method MapAndTransfer(lib: Device, req: array<IoVec>, resp: array?<IoVec>, totalSize: nat)
    returns (status: Status, data: seq<Byte>, ghost t0: seq<nat>, ghost t1: seq<nat>, ghost sent: seq<Flushed>)
    requires lib.Valid() && req != resp
    requires req.Length > 0 && (resp != null ==> resp.Length > 0)
    requires AllUnmapped(req[..]) && AllUnmapped(Contents(resp))
    requires totalSize == Sum(Sizes(Contents(resp)))
    modifies lib`next, lib`live, lib`mapLog, lib`mappings, lib`flushLog, req, resp
    ensures lib.Valid()
    ensures lib.live == old(lib.live) + Tokens(t0) + Tokens(t1) && lib.mapLog == old(lib.mapLog) + (t0 + t1)
    ensures Fresh(t0, old(lib.next)) && Fresh(t1, old(lib.next) + |t0|)
    ensures SameOwners(req[..], old(req[..])) && SameOwners(Contents(resp), old(Contents(resp)))
    ensures MappedWith(req[..], t0) && MappedWith(Contents(resp), t1)
    ensures lib.flushLog == old(lib.flushLog) + sent
    ensures Submitted(data, t0 + t1, sent, old(req[..]), old(Contents(resp)), resp != null, lib.mappings)
    ensures !status.IsError() <==> WentWell(sent) && |data| <= totalSize
    ensures WentWell(sent) && |data| > totalSize ==> status == DeviceError
    ensures !status.IsError() ==> Transferred(req[..], Contents(resp), |data|)
  {
    data, sent := [], [];
    status, t0, t1 := MapAll(lib, req, resp);
    if status.IsError() {
      return;
    }
    SameOwnersSizes(Contents(resp), old(Contents(resp)));
    ghost var r0, r1 := req[..], Contents(resp);
    ghost var f;
    status, data, f := Transfer(lib, req, resp, totalSize);
    sent := [f];
    ChainIsAddressed(f.chain, r0, r1, resp != null, t0, t1, lib.mappings);
    StillMapped(req[..], r0, t0);
    StillMapped(Contents(resp), r1, t1);
    AddressedOwners(f.chain, r0, r1, old(req[..]), old(Contents(resp)), t0 + t1, lib.mappings);
    DescribesOwners(f.chain, r0, r1, resp != null, old(req[..]), old(Contents(resp)));
  }

  /** A chain is submitted once if every vector has been mapped, and not at all otherwise. */
  ghost predicate Submitted(data: seq<Byte>, mapped: seq<nat>, sent: seq<Flushed>,
                            req: seq<IoVec>, resp: seq<IoVec>, hasResponse: bool, mappings: map<nat, Mapping>)
  {
    && |data| <= MAX_UINT32
    && |mapped| <= |req| + |resp|
    && |sent| == (if |mapped| == |req| + |resp| then 1 else 0)
    && (sent != [] ==>
          sent[0].data == data && Describes(sent[0].chain, req, resp, hasResponse) && Addressed(sent[0].chain, req + resp, mapped, mappings))
  }

  ghost predicate WentWell(sent: seq<Flushed>) {
    sent != [] && sent[0].ok
  }

  /**
    VirtioFsSgListsSubmit(). `data` is what the device has written into the
    response, `mapped` and `sent` are what the device's logs have gained.
  */
  method Submit(lib: Device, req: array<IoVec>, resp: array?<IoVec>, totalSize: nat)
    returns (status: Status, data: seq<Byte>, ghost mapped: seq<nat>, ghost sent: seq<Flushed>)
    requires lib.Valid() && req != resp
    requires req.Length > 0 && (resp != null ==> resp.Length > 0)
    requires AllUnmapped(req[..]) && AllUnmapped(Contents(resp))
    requires totalSize == Sum(Sizes(Contents(resp)))
    modifies lib, req, resp
    ensures SameOwners(req[..], old(req[..])) && SameOwners(Contents(resp), old(Contents(resp)))
    // Every vector that was mapped is unmapped once, in reverse order, on every path.
    ensures lib.Valid() && lib.live == old(lib.live)
    ensures lib.mapLog == old(lib.mapLog) + mapped && lib.unmapLog == old(lib.unmapLog) + Reverse(mapped)
    ensures lib.flushLog == old(lib.flushLog) + sent
    ensures AllUnmapped(req[..]) && AllUnmapped(Contents(resp))
    ensures Submitted(data, mapped, sent, old(req[..]), old(Contents(resp)), resp != null, lib.mappings)
    // Success means that every step succeeded, the unmapping included.
    ensures lib.unmapFailures >= old(lib.unmapFailures)
    ensures !status.IsError() <==>
              WentWell(sent) && |data| <= totalSize && lib.unmapFailures == old(lib.unmapFailures)
    ensures WentWell(sent) && |data| > totalSize ==> status == DeviceError
    ensures !status.IsError() ==> Transferred(req[..], Contents(resp), |data|)
  {
    ghost var t0, t1;
    ghost var first, live, was0, was1 := lib.next, lib.live, req[..], Contents(resp);
    status, data, t0, t1, sent := MapAndTransfer(lib, req, resp, totalSize);
    mapped := t0 + t1;
    status := Finish(lib, req, resp, status, t0, t1, first, live, was0, was1, |data|);
  }

  /** The common exit of Submit(): `live`, `was0` and `was1` are the state before it. */
  method Finish(lib: Device, req: array<IoVec>, resp: array?<IoVec>, status: Status, ghost t0: seq<nat>, ghost t1: seq<nat>,
                ghost first: nat, ghost live: set<nat>, ghost was0: seq<IoVec>, ghost was1: seq<IoVec>, ghost count: nat)
    returns (status': Status)
    requires lib.Valid() && req != resp && forall t :: t in live ==> t < first
    requires MappedWith(req[..], t0) && MappedWith(Contents(resp), t1)
    requires Fresh(t0, first) && Fresh(t1, first + |t0|) && lib.live == live + Tokens(t0) + Tokens(t1)
    requires SameOwners(req[..], was0) && SameOwners(Contents(resp), was1)
    modifies lib`live, lib`unmapLog, lib`unmapFailures, req, resp
    ensures lib.unmapFailures >= old(lib.unmapFailures)
    ensures lib.Valid() && lib.live == live && lib.unmapLog == old(lib.unmapLog) + Reverse(t0 + t1)
    ensures SameOwners(req[..], was0) && SameOwners(Contents(resp), was1)
    ensures AllUnmapped(req[..]) && AllUnmapped(Contents(resp))
    ensures old(Transferred(req[..], Contents(resp), count)) ==> Transferred(req[..], Contents(resp), count)
    ensures status.IsError() ==> status' == status
    ensures !status.IsError() ==> (status'.IsError() <==> lib.unmapFailures > old(lib.unmapFailures))
  {
    ghost var r0, r1 := req[..], Contents(resp);
    LiveAgain(live, t0, t1, first);
    status' := UnmapAll(lib, req, resp, status, t0, t1, first);
    AfterUnmap(r0, req[..], r1, Contents(resp), count);
    OwnersStay(req[..], r0, was0);
    OwnersStay(Contents(resp), r1, was1);
  }

  /** Unmapping clears the mapping fields and nothing else. */
  lemma AfterUnmap(r0: seq<IoVec>, req: seq<IoVec>, r1: seq<IoVec>, resp: seq<IoVec>, count: nat)
    requires Unmapping(req, r0, 0) && Unmapping(resp, r1, 0)
    ensures SameOwners(req, r0) && SameOwners(resp, r1)
    ensures AllUnmapped(req) && AllUnmapped(resp)
    ensures Transferred(r0, r1, count) ==> Transferred(req, resp, count)
  {
    assert Sizes(resp) == Sizes(r1);
  }

  lemma OwnersStay(u: seq<IoVec>, v: seq<IoVec>, w: seq<IoVec>)
    requires SameOwners(u, v) && SameOwners(v, w)
    ensures SameOwners(u, w)
  {
  }

  // ----- request numbers and replies -----

  /** Sizes of the wire structures of the FUSE protocol. */
  const REQUEST_HEADER_SIZE: nat := 40
  const RESPONSE_HEADER_SIZE: nat := 16
  const READ_REQUEST_SIZE: nat := 40

  /** VIRTIO_FS_FUSE_RESPONSE, as the device filled it in. */
  datatype ResponseHeader = ResponseHeader(len: nat, error: int, unique: nat)

  function LittleEndian(bytes: seq<Byte>): nat {
    if bytes == [] then 0 else bytes[0] + 0x100 * LittleEndian(bytes[1..])
  }

  /** The header in the first 16 bytes of a reply; Error is an INT32. */
  function Header(data: seq<Byte>): ResponseHeader {
    if |data| < RESPONSE_HEADER_SIZE then ResponseHeader(0, 0, 0)
    else
      var error := LittleEndian(data[4..8]);
      ResponseHeader(LittleEndian(data[0..4]), if error < 0x8000_0000 then error else error - TWO_TO_32, LittleEndian(data[8..16]))
  }

  /** How a device writes an unsigned number of k bytes. */
  ghost function Encoded(n: nat, k: nat): (r: seq<Byte>)
    ensures |r| == k
    decreases k
  {
    if k == 0 then [] else [n % 0x100] + Encoded(n / 0x100, k - 1)
  }

  ghost function Power(k: nat): nat {
    if k == 0 then 1 else 0x100 * Power(k - 1)
  }

  lemma {:induction false} LittleEndianOfEncoded(n: nat, k: nat)
    requires n < Power(k)
    ensures LittleEndian(Encoded(n, k)) == n
    decreases k
  {
    if k > 0 {
      LittleEndianOfEncoded(n / 0x100, k - 1);
      assert Encoded(n, k)[1..] == Encoded(n / 0x100, k - 1);
    }
  }

  /** How a device writes the header: length, error as an INT32, request number. */
  ghost function EncodedHeader(h: ResponseHeader): seq<Byte> {
    Encoded(h.len, 4) + Encoded((h.error + 0x1_0000_0000) % 0x1_0000_0000, 4) + Encoded(h.unique, 8)
  }

  /** The driver reads back what the device has written in front of the payload. */
  lemma HeaderRoundTrip(h: ResponseHeader, payload: seq<Byte>)
    requires h.len < 0x1_0000_0000 && -0x8000_0000 <= h.error < 0x8000_0000 && h.unique < 0x1_0000_0000_0000_0000
    ensures Header(EncodedHeader(h) + payload) == h
  {
    var data, error := EncodedHeader(h) + payload, (h.error + 0x1_0000_0000) % 0x1_0000_0000;
    assert data[0..4] == Encoded(h.len, 4) && data[4..8] == Encoded(error, 4) && data[8..16] == Encoded(h.unique, 8);
    PowersOf256();
    LittleEndianOfEncoded(h.len, 4);
    LittleEndianOfEncoded(error, 4);
    LittleEndianOfEncoded(h.unique, 8);
  }

  lemma PowersOf256()
    ensures Power(4) == 0x1_0000_0000 && Power(8) == 0x1_0000_0000_0000_0000
  {
    assert Power(0) == 1 && Power(1) == 0x100 && Power(2) == 0x1_0000 && Power(3) == 0x100_0000;
    assert Power(5) == 0x100_0000_0000 && Power(6) == 0x1_0000_0000_0000 && Power(7) == 0x100_0000_0000_0000;
  }

  /** The number of leading buffers that must be full. */
  function FixedVecs(v: seq<IoVec>, tail: bool): int {
    if tail then |v| - 1 else |v|
  }

  ghost predicate HeaderPresent(v: seq<IoVec>, header: ResponseHeader, requestId: nat, tail: bool)
    requires v != []
  {
    && !(tail && |v| == 1)
    && v[0].size == RESPONSE_HEADER_SIZE
    && v[0].transferred == v[0].size
    && header.len == Sum(Transfers(v))
    && header.unique == requestId
  }

  /** VirtioFsFuseCheckResponse(); `tail` says that the last buffer has variable size. */
  method CheckResponse(v: seq<IoVec>, header: ResponseHeader, requestId: nat, tail: bool)
    returns (status: Status, tailFill: nat)
    requires v != []
    requires Sum(Transfers(v)) <= MAX_UINT32
    ensures status == Success <==>
              && HeaderPresent(v, header, requestId, tail)
              && header.error == 0
              && forall i :: 1 <= i < FixedVecs(v, tail) ==> v[i].transferred == v[i].size
    ensures status == DeviceError <==> HeaderPresent(v, header, requestId, tail) && header.error != 0
    ensures status == Success && tail ==> tailFill == v[|v| - 1].transferred
    ensures status == Success || status == DeviceError || status == InvalidParameter || status == ProtocolError
  {
    tailFill := 0;
    var fixed := |v|;
    if tail {
      if |v| == 1 {
        return InvalidParameter, tailFill;
      }
      fixed := |v| - 1;
    }
    if v[0].size != RESPONSE_HEADER_SIZE {
      return InvalidParameter, tailFill;
    }
    if v[0].transferred != v[0].size {
      return ProtocolError, tailFill;
    }
    // UINT32 arithmetic; validation keeps it from wrapping.
    var total := 0;
    var idx := 0;
    while idx < |v|
      invariant 0 <= idx <= |v|
      invariant total == Sum(Transfers(v)[..idx])
    {
      SumAppend(Transfers(v), idx);
      SumMonotone(Transfers(v), idx + 1);
      total := (total + v[idx].transferred) % TWO_TO_32;
      idx := idx + 1;
    }
    assert Transfers(v)[..idx] == Transfers(v);
    if header.len != total {
      return ProtocolError, tailFill;
    }
    if header.unique != requestId {
      return ProtocolError, tailFill;
    }
    if header.error != 0 {
      return DeviceError, tailFill;
    }
    assert fixed >= 1;
    idx := 1;
    while idx < fixed
      invariant 1 <= idx <= fixed
      invariant forall i :: 1 <= i < idx ==> v[i].transferred == v[i].size
    {
      if v[idx].transferred != v[idx].size {
        return ProtocolError, tailFill;
      }
      idx := idx + 1;
    }
    if tail {
      tailFill := v[fixed].transferred;
    }
    return Success, tailFill;
  }

  /** After a successful check, the variable part is what the header announced beyond the fixed buffers. */
  lemma TailIsRemainder(v: seq<IoVec>, header: ResponseHeader, requestId: nat, count: nat)
    requires |v| >= 2 && FilledBy(v, count) && count <= Sum(Sizes(v)) <= MAX_UINT32
    requires HeaderPresent(v, header, requestId, true)
    requires forall i :: 1 <= i < |v| - 1 ==> v[i].transferred == v[i].size
    ensures header.len == count
    ensures v[|v| - 1].transferred == header.len - Sum(Sizes(v)[..|v| - 1])
    ensures v[|v| - 1].transferred <= v[|v| - 1].size <= MAX_UINT32
  {
    FillsAddUp(v, count);
    var n := |v| - 1;
    SumAppend(Transfers(v), n);
    SumAppend(Sizes(v), n);
    assert Transfers(v)[..n + 1] == Transfers(v) && Sizes(v)[..n + 1] == Sizes(v);
    assert Transfers(v)[..n] == Sizes(v)[..n];
  }

  /** The bytes are a complete reply without error to that request. */
  predicate IsReply(data: seq<Byte>, unique: nat) {
    |data| >= RESPONSE_HEADER_SIZE && Header(data) == ResponseHeader(|data|, 0, unique)
  }

  /** The part of VIRTIO_FS that exchanges use. */
  class Session {
    const queueSize: nat
    const lib: Device
    var requestId: nat
    ghost var issued: seq<nat>    // every request number handed out so far

    ghost predicate Valid()
      reads this
    {
      && queueSize <= MAX_UINT16
      && 1 <= requestId <= MAX_UINT64
      && (forall i :: 0 <= i < |issued| ==> 1 <= issued[i] < requestId)
      && (forall i, j :: 0 <= i < j < |issued| ==> issued[i] < issued[j])
    }

    /** FUSE_INIT starts the numbering. */
    constructor (queueSize: nat, lib: Device)
      requires queueSize <= MAX_UINT16
      ensures Valid() && issued == [] && requestId == 1 && this.queueSize == queueSize && this.lib == lib
    {
      this.queueSize := queueSize;
      this.lib := lib;
      requestId := 1;
      issued := [];
    }

    /** VirtioFsFuseNewRequest(): a number is used at most once in a session. */
    method NewRequest(requestSize: nat) returns (status: Status, unique: nat)
      requires Valid()
      modifies this
      ensures Valid()
      ensures status == if requestSize < REQUEST_HEADER_SIZE then InvalidParameter
                        else if old(requestId) == MAX_UINT64 then OutOfResources else Success
      ensures status == Success ==> unique == old(requestId) && unique !in old(issued) && issued == old(issued) + [unique]
      ensures status != Success ==> issued == old(issued) && requestId == old(requestId)
    {
      unique := 0;
      if requestSize < REQUEST_HEADER_SIZE {
        return InvalidParameter, unique;
      }
      if requestId == MAX_UINT64 {
        return OutOfResources, unique;
      }
      unique := requestId;
      requestId := requestId + 1;
      issued := issued + [unique];
      return Success, unique;
    }

    /** The scatter-gather lists of a read request, validated together. */
    method SetUpRead(size: nat)
      returns (status: Status, req: array<IoVec>, resp: array<IoVec>, reqSize: nat, respSize: nat)
      requires Valid() && size <= MAX_UINT32
      ensures fresh(req) && fresh(resp) && req != resp
      ensures queueSize < 4 ==> status == Unsupported
      ensures size == 0 && queueSize >= 4 ==> status == InvalidParameter
      ensures !status.IsError() <==> queueSize >= 4 && 0 < size && RESPONSE_HEADER_SIZE + size <= MAX_UINT32
      ensures !status.IsError() ==>
                && req.Length == 2 && resp.Length == 2
                && AllUnmapped(req[..]) && AllUnmapped(resp[..])
                && Sizes(resp[..]) == [RESPONSE_HEADER_SIZE, size]
                && reqSize == REQUEST_HEADER_SIZE + READ_REQUEST_SIZE
                && respSize == Sum(Sizes(resp[..])) <= MAX_UINT32
    {
      req := NewPair(REQUEST_HEADER_SIZE, READ_REQUEST_SIZE);
      resp := NewPair(RESPONSE_HEADER_SIZE, size);
      respSize := 0;
      var needed;
      status, needed, reqSize := ValidateList(req, 0, queueSize);
      if status.IsError() {
        return;
      }
      ghost var given := resp[..];
      if size == 0 {
        assert given[..1] == [given[0]] && Sizes(given)[..1] == [RESPONSE_HEADER_SIZE];
        assert Sum([RESPONSE_HEADER_SIZE]) == RESPONSE_HEADER_SIZE by {
          assert [RESPONSE_HEADER_SIZE][..0] == [];
        }
        assert EmptyAt(given, 1);
      }
      status, needed, respSize := ValidateList(resp, needed, queueSize);
      if status.IsError() {
        return;
      }
      assert given[1].NonEmpty();
      SameOwnersSizes(resp[..], given);
    }

    /** The tail of a read: check the reply and take the payload's size from it. */
    static method AcceptRead(resp: array<IoVec>, size: nat, data: seq<Byte>, unique: nat) returns (status: Status, size': nat)
      requires resp.Length == 2 && Sizes(resp[..]) == [RESPONSE_HEADER_SIZE, size] && RESPONSE_HEADER_SIZE + size <= MAX_UINT32
      requires FilledBy(resp[..], |data|) && |data| <= RESPONSE_HEADER_SIZE + size
      ensures status == Success <==> IsReply(data, unique)
      ensures status.IsError() || status == Success
      ensures status == Success ==> |data| == RESPONSE_HEADER_SIZE + size' && size' <= size
    {
      size' := size;
      SumPair(RESPONSE_HEADER_SIZE, size);
      FillsAddUp(resp[..], |data|);
      var header := Header(data);
      var tailFill;
      status, tailFill := CheckResponse(resp[..], header, unique, true);
      if status.IsError() {
        if status == DeviceError {
          status := ErrnoToStatus();
        }
        return;
      }
      TailIsRemainder(resp[..], header, unique, |data|);
      assert Sizes(resp[..])[..1] == [RESPONSE_HEADER_SIZE] && [RESPONSE_HEADER_SIZE][..0] == [];
      size' := tailFill;
    }

    /**
      VirtioFsFuseReadFileOrDir(): `size` bytes are asked for and `size'` are delivered into the
      caller's buffer. `sent` is what the device's log has gained. The read succeeds exactly if
      the exchange was possible, the device made it, the answer is a reply to this request that
      fits, and nothing went wrong in unmapping.
    */
    method ReadFileOrDir(size: nat, buffer: array<Byte>) returns (status: Status, size': nat, ghost sent: seq<Flushed>)
      requires Valid() && lib.Valid() && size <= MAX_UINT32 && size <= buffer.Length
      modifies this, lib, buffer
      ensures Valid() && lib.Valid() && lib.live == old(lib.live)
      ensures size == 0 && queueSize >= 4 ==> status == InvalidParameter
      ensures queueSize < 4 ==> status == Unsupported
      ensures buffer[size..] == old(buffer[size..])
      ensures lib.flushLog == old(lib.flushLog) + sent && |sent| <= 1
      ensures status == Success <==>
                && sent != [] && sent[0].ok && IsReply(sent[0].data, old(requestId))
                && |sent[0].data| <= RESPONSE_HEADER_SIZE + size
                && lib.unmapFailures == old(lib.unmapFailures)
      ensures status == Success ==>
                && 0 < size && size' <= size
                && |sent[0].data| == RESPONSE_HEADER_SIZE + size'
                && buffer[..size'] == sent[0].data[RESPONSE_HEADER_SIZE..]
                && old(requestId) !in old(issued) && issued == old(issued) + [old(requestId)]
    {
      size', sent := size, [];
      var req, resp, reqSize, respSize;
      status, req, resp, reqSize, respSize := SetUpRead(size);
      if status.IsError() {
        return;
      }
      ghost var given := resp[..];
      var unique;
      status, unique := NewRequest(reqSize);
      if status.IsError() {
        return;
      }
      SumPair(RESPONSE_HEADER_SIZE, size);
      var received;
      ghost var mapped;
      status, received, mapped, sent := Submit(lib, req, resp, respSize);
      if status.IsError() {
        return;
      }
      SameOwnersSizes(resp[..], given);
      Receive(received, buffer);
      status, size' := AcceptRead(resp, size, received, unique);
    }
  }

  /** VirtioFsErrnoToEfiStatus() returns errors only. */
  method ErrnoToStatus() returns (status: Status)
    ensures status.IsError()
  {
    status :| status.IsError();
  }

  /** The device has written the bytes behind the header into the caller's buffer. */
  method Receive(data: seq<Byte>, buffer: array<Byte>)
    requires |data| <= RESPONSE_HEADER_SIZE + buffer.Length
    modifies buffer
    ensures |data| >= RESPONSE_HEADER_SIZE ==> buffer[..|data| - RESPONSE_HEADER_SIZE] == data[RESPONSE_HEADER_SIZE..]
    ensures forall i :: 0 <= i < buffer.Length && i + RESPONSE_HEADER_SIZE >= |data| ==> buffer[i] == old(buffer[i])
  {
    if |data| >= RESPONSE_HEADER_SIZE {
      forall i | 0 <= i < |data| - RESPONSE_HEADER_SIZE {
        buffer[i] := data[RESPONSE_HEADER_SIZE + i];
      }
    }
  }

  method NewPair(size0: nat, size1: nat) returns (v: array<IoVec>)
    ensures fresh(v) && v.Length == 2
    ensures Sizes(v[..]) == [size0, size1]
    ensures Sum(Sizes(v[..])) == size0 + size1
    ensures v[0].size == size0 && v[1].size == size1 && v[0].buffer == 1 && v[1].buffer == 2
  {
    var unused := IoVec(1, 0, false, 0, None, 0);
    v := new IoVec[2](_ => unused);
    v[0] := unused.(size := size0);
    v[1] := unused.(buffer := 2, size := size1);
    SumPair(size0, size1);
    assert Sizes(v[..]) == [size0, size1];
  }

  lemma SumPair(a: nat, b: nat)
    ensures Sum([a, b]) == a + b
  {
    var s: seq<nat> := [a, b];
    assert s[..1] == [a] && s[..1][..0] == [];
    assert Sum(s[..1]) == Sum(s[..1][..0]) + a;
  }
}
