/**
  The virtio SCSI driver: enumeration of (target, LUN) pairs, encoding of a
  request, and accounting of what a response left undone.
*/
module Scsi {
  import opened Efi

  const TARGET_MAX_BYTES: nat := 16
  const SCSI_CDB_SIZE: nat := 32
  const SCSI_SENSE_SIZE: nat := 96
  const SIZE_1GB: nat := 0x4000_0000

  // ----- enumeration -----

  datatype Unit = Unit(target: nat, lun: nat) {
    /** Lexicographic order. */
    predicate Before(u: Unit) {
      target < u.target || (target == u.target && lun < u.lun)
    }

    predicate Within(maxTarget: nat, maxLun: nat) {
      target <= maxTarget && lun <= maxLun
    }
  }

  function Target(bytes: seq<Byte>): nat
    requires |bytes| >= 2
  {
    bytes[0] as int + 0x100 * (bytes[1] as int)
  }

  predicate IsSeed(bytes: seq<Byte>) {
    forall i :: 0 <= i < |bytes| ==> bytes[i] == 0xFF
  }

  /** VirtioScsiGetNextTargetLun(), in place on the caller's target bytes. */
  method GetNextTargetLun(target: array<Byte>, lun: nat, maxTarget: nat, maxLun: nat)
    returns (status: Status, lun': nat)
    requires target.Length == TARGET_MAX_BYTES
    requires maxTarget <= MAX_UINT16 && maxLun <= MAX_UINT32
    modifies target
    ensures status == Success || status == InvalidParameter || status == NotFound
    ensures old(IsSeed(target[..])) ==>
              status == Success && lun' == 0 && forall i :: 0 <= i < target.Length ==> target[i] == 0
    ensures !old(IsSeed(target[..])) ==>
              var u := Unit(old(Target(target[..])), lun);
              var u' := Unit(Target(target[..]), lun');
              && (status == InvalidParameter <==> !u.Within(maxTarget, maxLun))
              && (status == NotFound <==> u == Unit(maxTarget, maxLun))
              && (status == Success ==>
                    && u'.Within(maxTarget, maxLun) && u.Before(u')
                    && (forall v: Unit :: v.Within(maxTarget, maxLun) && u.Before(v) ==> v == u' || u'.Before(v)))
              && (status != Success ==> target[..] == old(target[..]) && lun' == lun)
              && target[2..] == old(target[2..])
  {
    lun' := lun;
    var idx := 0;
    while idx < TARGET_MAX_BYTES && target[idx] == 0xFF
      invariant 0 <= idx <= TARGET_MAX_BYTES
      invariant forall i :: 0 <= i < idx ==> target[i] == 0xFF
    {
      idx := idx + 1;
    }
    if idx == TARGET_MAX_BYTES {
      forall i | 0 <= i < target.Length {
        target[i] := 0;
      }
      return Success, 0;
    }
    assert target[..][idx] != 0xFF;
    var lastTarget: nat := Target(target[..]);
    if lastTarget > maxTarget || lun > maxLun {
      return InvalidParameter, lun';
    }
    if lun < maxLun {
      return Success, lun + 1;
    }
    if lastTarget < maxTarget {
      lastTarget := lastTarget + 1;
      target[0] := lastTarget % 0x100;
      target[1] := lastTarget / 0x100;
      return Success, 0;
    }
    return NotFound, lun';
  }

  /** Repeated calls from the all-ones seed visit every unit once, in order, and then report the end. */
  method Enumerate(maxTarget: nat, maxLun: nat) returns (visited: seq<Unit>)
    requires maxTarget <= MAX_UINT16 && maxLun <= MAX_UINT32
    ensures forall i :: 0 <= i < |visited| ==> visited[i].Within(maxTarget, maxLun)
    ensures forall i, j :: 0 <= i < j < |visited| ==> visited[i].Before(visited[j])
    ensures forall u: Unit :: u.Within(maxTarget, maxLun) ==> u in visited
  {
    var target := new Byte[TARGET_MAX_BYTES](_ => 0xFF);
    var status, lun := GetNextTargetLun(target, 0, maxTarget, maxLun);
    var u := Unit(Target(target[..]), lun);
    visited := [u];
    while status == Success
      invariant status == Success ==> u == Unit(Target(target[..]), lun)
      invariant status == Success || status == NotFound
      invariant u.Within(maxTarget, maxLun)
      invariant forall i :: 0 <= i < |visited| ==> visited[i].Within(maxTarget, maxLun) && (visited[i] == u || visited[i].Before(u))
      invariant forall i, j :: 0 <= i < j < |visited| ==> visited[i].Before(visited[j])
      invariant forall v: Unit :: v.Within(maxTarget, maxLun) ==> v in visited || u.Before(v)
      invariant status == NotFound ==> u == Unit(maxTarget, maxLun)
      invariant target[2] == 0
      decreases status == Success, maxTarget - u.target, maxLun - u.lun
    {
      assert target[..][2] != 0xFF && target[2..][0] == 0;
      status, lun := GetNextTargetLun(target, lun, maxTarget, maxLun);
      assert target[2] == target[2..][0];
      if status == Success {
        u := Unit(Target(target[..]), lun);
        visited := visited + [u];
      }
    }
  }

  // ----- requests -----

  const TARGET_GOOD: Byte := 0    // EFI_EXT_SCSI_STATUS_TARGET_GOOD

  datatype Direction = DirectionRead | DirectionWrite | DirectionBidirectional | DirectionInvalid

  datatype Packet = Packet(
    inLength: nat,
    outLength: nat,
    hasInBuffer: bool,
    hasOutBuffer: bool,
    cdb: seq<Byte>,
    direction: Direction,
    hostAdapterStatus: HostAdapterStatus,
    targetStatus: Byte,
    senseDataLength: Byte)

  datatype Device = Device(inOutSupported: bool, maxTarget: nat, maxLun: nat, maxSectors: nat)

  /** b | 0x40 */
  function SetBit6(b: Byte): Byte {
    if b / 0x40 % 2 == 1 then b else b + 0x40
  }

  function EncodeLun(target: nat, lun: nat): seq<Byte> {
    [1, target % 0x100, SetBit6(lun / 0x100 % 0x100), lun % 0x100]
  }

  /** How the host reads the address back: virtio 0.9.5, appendix I. */
  function DecodeLun(bytes: seq<Byte>): Unit
    requires |bytes| == 4
  {
    Unit(bytes[1], (bytes[2] as int) % 0x40 * 0x100 + bytes[3] as int)
  }

  /** What the first check lets through: the address fits the encoding. */
  predicate Encodable(target: nat, lun: nat) {
    target <= 0xFF && lun < 0x4000
  }

  lemma EncodingRoundTrip(target: nat, lun: nat)
    requires Encodable(target, lun)
    ensures DecodeLun(EncodeLun(target, lun)) == Unit(target, lun)
  {
  }

  lemma EncodingInjective(t1: nat, l1: nat, t2: nat, l2: nat)
    requires Encodable(t1, l1) && Encodable(t2, l2)
    requires EncodeLun(t1, l1) == EncodeLun(t2, l2)
    ensures t1 == t2 && l1 == l2
  {
    EncodingRoundTrip(t1, l1);
    EncodingRoundTrip(t2, l2);
  }

  /** Sectors of 512 bytes, the last one possibly not full. */
  ghost function Sectors(length: nat): nat {
    (length + 511) / 512
  }

  ghost predicate IsUnsupported(dev: Device, target: nat, lun: nat, p: Packet) {
    || (p.inLength > 0 && p.outLength > 0 && !dev.inOutSupported)
    || !Encodable(target, lun)
    || |p.cdb| > SCSI_CDB_SIZE
    || p.inLength + p.outLength > SIZE_1GB
  }

  ghost predicate IsInvalid(dev: Device, target: nat, lun: nat, p: Packet) {
    || target > dev.maxTarget || lun > dev.maxLun
    || p.direction == DirectionInvalid
    || (p.inLength > 0 && (!p.hasInBuffer || p.direction == DirectionWrite))
    || (p.outLength > 0 && (!p.hasOutBuffer || p.direction == DirectionRead))
  }

  ghost predicate IsOversized(dev: Device, p: Packet) {
    Sectors(p.outLength) > dev.maxSectors / 2 || Sectors(p.inLength) > dev.maxSectors / 2
  }

  lemma SectorsHold(length: nat)
    ensures length <= Sectors(length) * 512 < length + 512
  {
  }

  /** PopulateRequest(), on a pre-zeroed request. */
  method PopulateRequest(dev: Device, target: nat, lun: nat, p: Packet)
    returns (status: Status, p': Packet, lunBytes: seq<Byte>, cdb: array<Byte>)
    ensures fresh(cdb) && cdb.Length == SCSI_CDB_SIZE
    ensures status == if IsUnsupported(dev, target, lun, p) then Unsupported
                      else if IsInvalid(dev, target, lun, p) then InvalidParameter
                      else if IsOversized(dev, p) then BadBufferSize else Success
    // An oversized request comes back with the lengths that would have been accepted.
    ensures status == BadBufferSize ==>
              && p' == p.(inLength := p'.inLength, outLength := p'.outLength, hostAdapterStatus := DataOverrunUnderrun,
                          targetStatus := TARGET_GOOD, senseDataLength := 0)
              && p'.inLength == p'.outLength && Sectors(p'.inLength) == dev.maxSectors / 2 && !IsOversized(dev, p')
    ensures status != BadBufferSize ==> p' == p
    ensures status == Success ==>
              && |lunBytes| == 4 && DecodeLun(lunBytes) == Unit(target, lun)
              && lunBytes[0] == 1 && lunBytes[2] >= 0x40
              && |p.cdb| <= SCSI_CDB_SIZE
              && cdb[..|p.cdb|] == p.cdb
              && (forall i :: |p.cdb| <= i < SCSI_CDB_SIZE ==> cdb[i] == 0)
              // The two directions together respect the device's limit.
              && Sectors(p.outLength) + Sectors(p.inLength) <= dev.maxSectors
  {
    p', lunBytes := p, [0, 0, 0, 0];
    cdb := new Byte[SCSI_CDB_SIZE](_ => 0);
    if || (p.inLength > 0 && p.outLength > 0 && !dev.inOutSupported)
       || target > 0xFF || lun >= 0x4000
       || |p.cdb| > SCSI_CDB_SIZE
       || p.inLength + p.outLength > SIZE_1GB
    {
      return Unsupported, p', lunBytes, cdb;
    }
    if || target > dev.maxTarget || lun > dev.maxLun
       || p.direction == DirectionInvalid
       || (p.inLength > 0 && (!p.hasInBuffer || p.direction == DirectionWrite))
       || (p.outLength > 0 && (!p.hasOutBuffer || p.direction == DirectionRead))
    {
      return InvalidParameter, p', lunBytes, cdb;
    }
    if (p.outLength + 511) / 512 > dev.maxSectors / 2 || (p.inLength + 511) / 512 > dev.maxSectors / 2 {
      p' := p'.(inLength := dev.maxSectors / 2 * 512, outLength := dev.maxSectors / 2 * 512,
                hostAdapterStatus := DataOverrunUnderrun, targetStatus := TARGET_GOOD, senseDataLength := 0);
      return BadBufferSize, p', lunBytes, cdb;
    }
    lunBytes := [1, target % 0x100, SetBit6(lun / 0x100 % 0x100), lun % 0x100];
    EncodingRoundTrip(target, lun);
    var idx := 0;
    while idx < |p.cdb|
      invariant 0 <= idx <= |p.cdb|
      invariant cdb[..idx] == p.cdb[..idx]
      invariant forall i :: idx <= i < SCSI_CDB_SIZE ==> cdb[i] == 0
    {
      cdb[idx] := p.cdb[idx];
      assert cdb[..idx + 1] == cdb[..idx] + [p.cdb[idx]];
      idx := idx + 1;
    }
    return Success, p', lunBytes, cdb;
  }

  // ----- responses -----

  datatype Response = Ok | Overrun | BadTarget | Reset | Busy | OtherResponse

  datatype HostAdapterStatus = AdapterOk | DataOverrunUnderrun | TimeoutCommand | BusReset | AdapterOther

  /** What the caller of PassThru() can tell apart: the adapter status for each status returned. */
  predicate Reported(response: Response, status: Status, adapter: HostAdapterStatus) {
    match response
    case Ok => status == Success && adapter == AdapterOk
    case Busy => status == NotReady && adapter == AdapterOk
    case BadTarget => status == Timeout && adapter == TimeoutCommand
    case Overrun => status == DeviceError && adapter == DataOverrunUnderrun
    case Reset => status == DeviceError && adapter == BusReset
    case OtherResponse => status == DeviceError && adapter == AdapterOther
  }

  /** No two responses are reported alike. */
  lemma ReportsDiffer(a: Response, b: Response, status: Status, adapter: HostAdapterStatus)
    requires Reported(a, status, adapter) && Reported(b, status, adapter)
    ensures a == b
  {
  }

  /** The transfer lengths are UINT32 and wrap. */
  function AfterResidual(inLength: nat, outLength: nat, residual: nat): (nat, nat) {
    if residual <= inLength then (inLength - residual, outLength)
    else (0, (outLength - (residual - inLength)) % TWO_TO_32)
  }

  /**
    The reported lengths are lengths of parts of the request exactly when the residual does not
    exceed the request. Then they add up to what was processed, and data out comes before data in.
  */
  lemma ResidualExact(inLength: nat, outLength: nat, residual: nat)
    requires inLength <= MAX_UINT32 && outLength <= MAX_UINT32 && residual <= MAX_UINT32
    ensures var (in', out') := AfterResidual(inLength, outLength, residual);
            && (in' <= inLength && out' <= outLength <==> residual <= inLength + outLength)
            && (residual <= inLength + outLength ==>
                  && in' + out' == inLength + outLength - residual
                  && (in' > 0 ==> out' == outLength))
  {
    if residual > inLength + outLength {
      assert (outLength - (residual - inLength)) % TWO_TO_32 == outLength - (residual - inLength) + TWO_TO_32;
    }
  }

  /** A residual beyond the request: the reported length wraps. */
  lemma ResidualWraps()
    ensures AfterResidual(0, 0, 1) == (0, MAX_UINT32)
  {
  }

  method CopySense(senseLength: nat, reported: nat, sense: seq<Byte>, buffer: array<Byte>) returns (senseLength': nat)
    requires |sense| == SCSI_SENSE_SIZE && senseLength <= 0xFF && senseLength <= buffer.Length
    modifies buffer
    ensures senseLength' == Min(senseLength, Min(reported, SCSI_SENSE_SIZE))
    ensures buffer[..senseLength'] == sense[..senseLength']
    ensures buffer[senseLength'..] == old(buffer[senseLength'..])
  {
    var available := Min(reported, SCSI_SENSE_SIZE);
    senseLength' := senseLength;
    if senseLength' > available {
      senseLength' := available;
    }
    var idx := 0;
    while idx < senseLength'
      invariant 0 <= idx <= senseLength'
      invariant buffer[..idx] == sense[..idx]
      invariant buffer[senseLength'..] == old(buffer[senseLength'..])
    {
      buffer[idx] := sense[idx];
      assert buffer[..idx + 1] == buffer[..idx] + [sense[idx]];
      idx := idx + 1;
    }
  }

  /** ParseResponse(): sense data, transfer lengths and status of one response. */
  method ParseResponse(inLength: nat, outLength: nat, senseLength: nat, senseBuffer: array<Byte>,
                       response: Response, scsiStatus: Byte, residual: nat, reported: nat, sense: seq<Byte>)
    returns (status: Status, adapter: HostAdapterStatus, targetStatus: Byte, in': nat, out': nat, senseLength': nat)
    requires inLength <= MAX_UINT32 && outLength <= MAX_UINT32 && residual <= MAX_UINT32
    requires |sense| == SCSI_SENSE_SIZE && senseLength <= 0xFF && senseLength <= senseBuffer.Length
    modifies senseBuffer
    ensures senseLength' == Min(senseLength, Min(reported, SCSI_SENSE_SIZE))
    ensures senseBuffer[..senseLength'] == sense[..senseLength']
    ensures senseBuffer[senseLength'..] == old(senseBuffer[senseLength'..])
    ensures (in', out') == AfterResidual(inLength, outLength, residual)
    ensures targetStatus == scsiStatus
    ensures Reported(response, status, adapter)
  {
    senseLength' := CopySense(senseLength, reported, sense, senseBuffer);
    in', out' := inLength, outLength;
    if residual <= in' {
      in' := in' - residual;
    } else {
      out' := (out' - (residual - in')) % TWO_TO_32;
      in' := 0;
    }
    targetStatus := scsiStatus;
    match response {
      case Ok =>
        status, adapter := Success, AdapterOk;
      case Overrun =>
        status, adapter := DeviceError, DataOverrunUnderrun;
      case BadTarget =>
        status, adapter := Timeout, TimeoutCommand;
      case Reset =>
        status, adapter := DeviceError, BusReset;
      case Busy =>
        status, adapter := NotReady, AdapterOk;
      case OtherResponse =>
        status, adapter := DeviceError, AdapterOther;
    }
  }
}
