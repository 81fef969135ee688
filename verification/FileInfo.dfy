/**
  Translation between FUSE attributes and EFI_FILE_INFO, and the differences that
  SetInfo() turns into a FUSE_SETATTR request.

  The conversions between seconds and EFI_TIME belong to another library; they
  are a parameter here.
*/
module FileInfo {
  import opened Efi

  const NAME_OFFSET: nat := 80    // OFFSET_OF (EFI_FILE_INFO, FileName)

  const FILE_READ_ONLY: bv64 := 0x01
  const FILE_DIRECTORY: bv64 := 0x10
  const FILE_VALID_ATTR: bv64 := 0x37

  const MODE_TYPE_MASK: bv32 := 0xF000
  const MODE_TYPE_DIR: bv32 := 0x4000
  const MODE_TYPE_REG: bv32 := 0x8000
  const MODE_PERM_W: bv32 := 0x92      // -w--w--w-

  /** EFI_TIME; `stamp` stands for the fields from Year to Nanosecond. */
  datatype EfiTime = EfiTime(stamp: nat, timeZone: int, daylight: nat, pad: nat)

  const ZERO_TIME := EfiTime(0, 0, 0, 0)

  /** EpochToEfiTime(), EfiTimeToEpoch() and IsTimeValid(). */
  datatype TimeLib = TimeLib(stampOf: nat -> nat, secondsOf: EfiTime -> nat, isValid: EfiTime -> bool)

  datatype FuseAttr = FuseAttr(size: nat, blocks: nat, atime: nat, mtime: nat, mode: bv32, nlink: nat)

  /** The scalar fields of EFI_FILE_INFO. */
  datatype Info = Info(
    fileSize: nat,
    physicalSize: nat,
    createTime: EfiTime,
    accessTime: EfiTime,
    modificationTime: EfiTime,
    attribute: bv64)
  {
    predicate IsDirectory() {
      attribute & FILE_DIRECTORY != 0
    }

    predicate IsReadOnly() {
      attribute & FILE_READ_ONLY != 0
    }
  }

  function ConvertTime(lib: TimeLib, seconds: nat): EfiTime {
    EfiTime(lib.stampOf(seconds), 0, 0, 0)
  }

  predicate Writeable(mode: bv32) {
    mode & MODE_PERM_W != 0
  }

  function AttributeOf(mode: bv32): bv64 {
    (if mode & MODE_TYPE_MASK == MODE_TYPE_DIR then FILE_DIRECTORY else 0) |
    (if Writeable(mode) then 0 else FILE_READ_ONLY)
  }

  /** The fields of EFI_FILE_INFO that attributes stand for; None stands for EFI_UNSUPPORTED. */
  ghost function AttrToFileInfo(lib: TimeLib, attr: FuseAttr): Option<Info> {
    var isDir := attr.mode & MODE_TYPE_MASK == MODE_TYPE_DIR;
    var isReg := attr.mode & MODE_TYPE_MASK == MODE_TYPE_REG;
    if attr.blocks >= 0x80_0000_0000_0000 || attr.mtime > MAX_UINT64 || attr.atime > MAX_UINT64 then None
    else if !isDir && !isReg then None
    else if isReg && attr.nlink > 1 then None
    else Some(Info(attr.size, attr.blocks * 512,
                   ConvertTime(lib, attr.mtime), ConvertTime(lib, attr.atime), ConvertTime(lib, attr.mtime),
                   AttributeOf(attr.mode)))
  }

  /** VirtioFsFuseAttrToEfiFileInfo() */
  method ReadAttributes(lib: TimeLib, attr: FuseAttr) returns (info: Option<Info>)
    ensures info == AttrToFileInfo(lib, attr)
  {
    if attr.blocks >= 0x80_0000_0000_0000 {
      return None;
    }
    var physicalSize := attr.blocks * 512;
    var epochTime := [attr.mtime, attr.atime, attr.mtime];
    var converted: seq<EfiTime> := [];
    var idx := 0;
    while idx < 3
      invariant 0 <= idx <= 3 && |converted| == idx
      invariant forall k :: 0 <= k < idx ==> epochTime[k] <= MAX_UINT64 && converted[k] == ConvertTime(lib, epochTime[k])
    {
      if epochTime[idx] > MAX_UINT64 {
        return None;
      }
      converted := converted + [EfiTime(lib.stampOf(epochTime[idx]), 0, 0, 0)];
      idx := idx + 1;
    }
    assert converted[0] == ConvertTime(lib, epochTime[0]) && converted[1] == ConvertTime(lib, epochTime[1]);
    var fileType, attribute := attr.mode & MODE_TYPE_MASK, 0;
    if fileType == MODE_TYPE_DIR {
      attribute := FILE_DIRECTORY;
    } else if fileType != MODE_TYPE_REG {
      return None;
    }
    ghost var directoryBit := attribute;
    if attr.mode & MODE_PERM_W == 0 {
      attribute := attribute | FILE_READ_ONLY;
    }
    AttributeSteps(attr.mode, directoryBit, attribute);
    if attribute & FILE_DIRECTORY == 0 && attr.nlink > 1 {
      return None;
    }
    info := Some(Info(attr.size, physicalSize, converted[0], converted[1], converted[2], attribute));
  }

  /** The attribute word, set bit by bit. */
  lemma AttributeSteps(mode: bv32, directoryBit: bv64, attribute: bv64)
    requires directoryBit == if mode & MODE_TYPE_MASK == MODE_TYPE_DIR then FILE_DIRECTORY else 0
    requires attribute == if mode & MODE_PERM_W == 0 then directoryBit | FILE_READ_ONLY else directoryBit
    ensures attribute == AttributeOf(mode)
    ensures attribute & FILE_DIRECTORY == 0 <==> mode & MODE_TYPE_MASK != MODE_TYPE_DIR
  {
  }

  /** Attributes can be expressed unless they are those of another kind of file, or the size overflows. */
  lemma ExpressibleExactly(lib: TimeLib, attr: FuseAttr)
    requires attr.atime <= MAX_UINT64 && attr.mtime <= MAX_UINT64
    ensures AttrToFileInfo(lib, attr).Some? <==>
            && (attr.mode & 0xF000 == 0x4000 || (attr.mode & 0xF000 == 0x8000 && attr.nlink <= 1))
            && attr.blocks * 512 <= MAX_UINT64
    ensures AttrToFileInfo(lib, attr).Some? ==>
              var info := AttrToFileInfo(lib, attr).value;
              && info.fileSize == attr.size && info.physicalSize == 512 * attr.blocks
              && info.accessTime.stamp == lib.stampOf(attr.atime)
              && info.createTime.stamp == info.modificationTime.stamp == lib.stampOf(attr.mtime)
              && (info.IsDirectory() <==> attr.mode & 0xF000 == 0x4000)
              && (info.IsReadOnly() <==> attr.mode & 0x92 == 0)
  {
    AttributeBits(attr.mode);
  }

  // ----- differences -----

  /** What VirtioFsGetFuseSizeUpdate() finds. */
  ghost function SizeUpdate(info: Info, newInfo: Info): Option<nat> {
    if info.IsDirectory() || info.fileSize == newInfo.fileSize then None else Some(newInfo.fileSize)
  }

  /** A zero time means "do not update". */
  predicate TimeChanges(time: EfiTime, newTime: EfiTime) {
    newTime != ZERO_TIME && newTime != time
  }

  datatype TimeResult = Times(atime: Option<nat>, mtime: Option<nat>) | TimeError(status: Status)

  /** What VirtioFsGetFuseTimeUpdates() finds. */
  ghost function TimeUpdates(lib: TimeLib, info: Info, newInfo: Info): TimeResult {
    var c := TimeChanges(info.createTime, newInfo.createTime);
    var a := TimeChanges(info.accessTime, newInfo.accessTime);
    var m := TimeChanges(info.modificationTime, newInfo.modificationTime);
    if (c && !lib.isValid(newInfo.createTime)) || (a && !lib.isValid(newInfo.accessTime)) ||
       (m && !lib.isValid(newInfo.modificationTime)) then TimeError(InvalidParameter)
    else if c && m && lib.secondsOf(newInfo.createTime) != lib.secondsOf(newInfo.modificationTime) then
      TimeError(AccessDenied)
    else
      Times(if a then Some(lib.secondsOf(newInfo.accessTime)) else None,
            if m then Some(lib.secondsOf(newInfo.modificationTime))
            else if c then Some(lib.secondsOf(newInfo.createTime)) else None)
  }

  datatype ModeResult = Mode(perm: Option<bv32>) | ModeError(status: Status)

  /** What VirtioFsGetFuseModeUpdate() finds. */
  ghost function ModeUpdate(info: Info, newInfo: Info): ModeResult {
    var toggle := info.attribute ^ newInfo.attribute;
    if toggle & !FILE_VALID_ATTR != 0 || toggle & FILE_DIRECTORY != 0 then ModeError(AccessDenied)
    else if info.IsReadOnly() == newInfo.IsReadOnly() then Mode(None)
    else if info.IsDirectory() then Mode(Some(if newInfo.IsReadOnly() then 0x16D else 0x1FF))
    else Mode(Some(if newInfo.IsReadOnly() then 0x124 else 0x1B6))
  }

  datatype SetAttr = SetAttr(size: Option<nat>, atime: Option<nat>, mtime: Option<nat>, mode: Option<bv32>)
  {
    predicate IsEmpty() {
      this == SetAttr(None, None, None, None)
    }
  }

  datatype Update = NoUpdate | Send(request: SetAttr) | Refuse(status: Status)

  /** What UpdateAttributes() comes to, once the current attributes are known. */
  ghost function UpdateAttributes(lib: TimeLib, attr: FuseAttr, fileIsDirectory: bool, openForWriting: bool, newInfo: Info): Update {
    match AttrToFileInfo(lib, attr)
    case None => Refuse(Unsupported)
    case Some(info) =>
      var size := if fileIsDirectory then None else SizeUpdate(info, newInfo);
      match TimeUpdates(lib, info, newInfo)
      case TimeError(s) => Refuse(s)
      case Times(atime, mtime) =>
        match ModeUpdate(info, newInfo)
        case ModeError(s) => Refuse(s)
        case Mode(perm) =>
          var request := SetAttr(size, atime, mtime, perm);
          if request.IsEmpty() then NoUpdate
          else if !openForWriting && (size.Some? || atime.Some? || mtime.Some?) then Refuse(AccessDenied)
          else Send(request)
  }

  /** VirtioFsGetFuseSizeUpdate() */
  method GetSizeUpdate(info: Info, newInfo: Info) returns (size: Option<nat>)
    ensures size == SizeUpdate(info, newInfo)
  {
    var isDirectory := info.attribute & FILE_DIRECTORY != 0;
    if isDirectory || info.fileSize == newInfo.fileSize {
      return None;
    }
    return Some(newInfo.fileSize);
  }

  /** VirtioFsGetFuseTimeUpdates() */
  method GetTimeUpdates(lib: TimeLib, info: Info, newInfo: Info) returns (r: TimeResult)
    ensures r == TimeUpdates(lib, info, newInfo)
  {
    var time := [info.createTime, info.accessTime, info.modificationTime];
    var newTime := [newInfo.createTime, newInfo.accessTime, newInfo.modificationTime];
    var change: seq<bool> := [];
    var seconds: seq<nat> := [];
    var idx := 0;
    while idx < 3
      invariant 0 <= idx <= 3 && |change| == |seconds| == idx
      invariant forall k :: 0 <= k < idx ==>
                  && (change[k] <==> TimeChanges(time[k], newTime[k]))
                  && (change[k] ==> lib.isValid(newTime[k]) && seconds[k] == lib.secondsOf(newTime[k]))
    {
      if newTime[idx] == ZERO_TIME || newTime[idx] == time[idx] {
        change, seconds := change + [false], seconds + [0];
      } else {
        if !lib.isValid(newTime[idx]) {
          return TimeError(InvalidParameter);
        }
        change, seconds := change + [true], seconds + [lib.secondsOf(newTime[idx])];
      }
      idx := idx + 1;
    }
    assert change[0] <==> TimeChanges(time[0], newTime[0]);
    assert change[1] <==> TimeChanges(time[1], newTime[1]);
    assert change[2] <==> TimeChanges(time[2], newTime[2]);
    if change[0] && change[2] && seconds[0] != seconds[2] {
      return TimeError(AccessDenied);
    }
    var atime, mtime := None, None;
    if change[0] {
      mtime := Some(seconds[0]);
    }
    if change[1] {
      atime := Some(seconds[1]);
    }
    if change[2] {
      mtime := Some(seconds[2]);
    }
    return Times(atime, mtime);
  }

  /** VirtioFsGetFuseModeUpdate() */
  method GetModeUpdate(info: Info, newInfo: Info) returns (r: ModeResult)
    ensures r == ModeUpdate(info, newInfo)
  {
    var toggle := info.attribute ^ newInfo.attribute;
    if toggle & !FILE_VALID_ATTR != 0 {
      return ModeError(AccessDenied);
    }
    if toggle & FILE_DIRECTORY != 0 {
      return ModeError(AccessDenied);
    }
    var isDirectory := info.attribute & FILE_DIRECTORY != 0;
    var isWriteable := info.attribute & FILE_READ_ONLY == 0;
    var willBeWriteable := newInfo.attribute & FILE_READ_ONLY == 0;
    if isWriteable == willBeWriteable {
      return Mode(None);
    }
    if isDirectory {
      return Mode(Some(if willBeWriteable then 0x1FF else 0x16D));
    }
    return Mode(Some(if willBeWriteable then 0x1B6 else 0x124));
  }

  /** The middle of UpdateAttributes(): collect the updates and decide whether to send them. */
  method CollectUpdates(lib: TimeLib, attr: FuseAttr, fileIsDirectory: bool, openForWriting: bool, newInfo: Info)
    returns (u: Update)
    ensures u == UpdateAttributes(lib, attr, fileIsDirectory, openForWriting, newInfo)
  {
    var info := ReadAttributes(lib, attr);
    if info == None {
      return Refuse(Unsupported);
    }
    var size := None;
    if !fileIsDirectory {
      size := GetSizeUpdate(info.value, newInfo);
    }
    var times := GetTimeUpdates(lib, info.value, newInfo);
    if times.TimeError? {
      return Refuse(times.status);
    }
    var mode := GetModeUpdate(info.value, newInfo);
    if mode.ModeError? {
      return Refuse(mode.status);
    }
    if size == None && times.atime == None && times.mtime == None && mode.perm == None {
      return NoUpdate;
    }
    if !openForWriting && (size.Some? || times.atime.Some? || times.mtime.Some?) {
      return Refuse(AccessDenied);
    }
    return Send(SetAttr(size, times.atime, times.mtime, mode.perm));
  }

  /** A refusal is always reported as an error. */
  lemma RefusalIsError(lib: TimeLib, attr: FuseAttr, fileIsDirectory: bool, openForWriting: bool, newInfo: Info)
    ensures var u := UpdateAttributes(lib, attr, fileIsDirectory, openForWriting, newInfo);
            u.Refuse? ==> u.status.IsError()
  {
  }

  /** Asking for the current state is not an update, whatever the file is and however it was opened. */
  lemma UnmodifiedInfoIsNoUpdate(lib: TimeLib, attr: FuseAttr, fileIsDirectory: bool, openForWriting: bool)
    requires AttrToFileInfo(lib, attr).Some?
    ensures UpdateAttributes(lib, attr, fileIsDirectory, openForWriting, AttrToFileInfo(lib, attr).value) == NoUpdate
  {
    var info := AttrToFileInfo(lib, attr).value;
    assert info.attribute ^ info.attribute == 0;
  }

  /** What the server does with new permission bits. */
  function WithPermissions(attr: FuseAttr, perm: bv32): FuseAttr {
    attr.(mode := (attr.mode & MODE_TYPE_MASK) | perm)
  }

  /**
    After the mode change that the driver asks for, the file reports the requested
    read-only bit and the same directory bit.
  */
  lemma ModeUpdateTakesEffect(lib: TimeLib, attr: FuseAttr, newInfo: Info)
    requires AttrToFileInfo(lib, attr).Some?
    requires ModeUpdate(AttrToFileInfo(lib, attr).value, newInfo).Mode?
    ensures var info := AttrToFileInfo(lib, attr).value;
            var perm := ModeUpdate(info, newInfo).perm;
            var attr' := if perm.Some? then WithPermissions(attr, perm.value) else attr;
            && AttrToFileInfo(lib, attr').Some?
            && var after := AttrToFileInfo(lib, attr').value;
               && after.IsReadOnly() == newInfo.IsReadOnly()
               && after.IsDirectory() == info.IsDirectory() == newInfo.IsDirectory()
  {
    var info := AttrToFileInfo(lib, attr).value;
    AttributeBits(attr.mode);
    DirectoryBitKept(info.attribute, newInfo.attribute);
    match ModeUpdate(info, newInfo).perm {
      case None =>
      case Some(perm) =>
        TypeBitsKept(attr.mode, perm);
        AttributeBits(WithPermissions(attr, perm).mode);
    }
  }

  /** What the server makes of a FUSE_SETATTR request. */
  ghost function Applied(attr: FuseAttr, request: SetAttr): FuseAttr {
    var a := attr.(size := if request.size.Some? then request.size.value else attr.size,
                   atime := if request.atime.Some? then request.atime.value else attr.atime,
                   mtime := if request.mtime.Some? then request.mtime.value else attr.mtime);
    if request.mode.Some? then WithPermissions(a, request.mode.value) else a
  }

  /** The time library gives a time back, in seconds that fit a UINTN. */
  ghost predicate RoundTrips(lib: TimeLib, time: EfiTime) {
    lib.secondsOf(time) <= MAX_UINT64 && ConvertTime(lib, lib.secondsOf(time)) == time
  }

  ghost predicate AllRoundTrip(lib: TimeLib, info: Info) {
    RoundTrips(lib, info.createTime) && RoundTrips(lib, info.accessTime) && RoundTrips(lib, info.modificationTime)
  }

  /** A time that is not the zero time, which asks for nothing, is reported; otherwise the current one is. */
  ghost predicate TimeMet(current: EfiTime, requested: EfiTime, reported: EfiTime) {
    reported == if requested == ZERO_TIME then current else requested
  }

  /**
    After the request that the driver sends, GetInfo() reports the requested size, access
    time and read-only bit, and of creation and modification time each one that changes.
  */
  lemma UpdateTakesEffect(lib: TimeLib, attr: FuseAttr, fileIsDirectory: bool, openForWriting: bool, newInfo: Info)
    requires AttrToFileInfo(lib, attr).Some? && AllRoundTrip(lib, newInfo)
    requires UpdateAttributes(lib, attr, fileIsDirectory, openForWriting, newInfo).Send?
    ensures var info := AttrToFileInfo(lib, attr).value;
            var request := UpdateAttributes(lib, attr, fileIsDirectory, openForWriting, newInfo).request;
            var after := AttrToFileInfo(lib, Applied(attr, request));
            && after.Some?
            && after.value.fileSize == (if fileIsDirectory || info.IsDirectory() then info.fileSize else newInfo.fileSize)
            && TimeMet(info.accessTime, newInfo.accessTime, after.value.accessTime)
            && (newInfo.createTime != info.createTime ==> newInfo.createTime == ZERO_TIME || after.value.createTime == newInfo.createTime)
            && (newInfo.modificationTime != info.modificationTime ==>
                  newInfo.modificationTime == ZERO_TIME || after.value.modificationTime == newInfo.modificationTime)
            && after.value.IsReadOnly() == newInfo.IsReadOnly() && after.value.IsDirectory() == newInfo.IsDirectory()
            && after.value.physicalSize == info.physicalSize
  {
    var info := AttrToFileInfo(lib, attr).value;
    var request := UpdateAttributes(lib, attr, fileIsDirectory, openForWriting, newInfo).request;
    AttributeBits(attr.mode);
    ModeUpdateTakesEffect(lib, attr, newInfo);
    AttributeBits(Applied(attr, request).mode);
  }

  /**
    The server keeps one time for both, so creation and modification time can be had as
    requested if and only if they are the same.
  */
  lemma BothTimesExactly(lib: TimeLib, attr: FuseAttr, fileIsDirectory: bool, openForWriting: bool, newInfo: Info)
    requires AttrToFileInfo(lib, attr).Some? && AllRoundTrip(lib, newInfo)
    requires newInfo.createTime != ZERO_TIME && newInfo.modificationTime != ZERO_TIME
    requires UpdateAttributes(lib, attr, fileIsDirectory, openForWriting, newInfo).Send?
    ensures var info := AttrToFileInfo(lib, attr).value;
            var request := UpdateAttributes(lib, attr, fileIsDirectory, openForWriting, newInfo).request;
            var after := AttrToFileInfo(lib, Applied(attr, request));
            && after.Some?
            && (after.value.createTime == newInfo.createTime && after.value.modificationTime == newInfo.modificationTime <==>
                newInfo.createTime == newInfo.modificationTime)
  {
    UpdateTakesEffect(lib, attr, fileIsDirectory, openForWriting, newInfo);
  }

  lemma AttributeBits(mode: bv32)
    ensures AttributeOf(mode) & FILE_DIRECTORY != 0 <==> mode & MODE_TYPE_MASK == MODE_TYPE_DIR
    ensures AttributeOf(mode) & FILE_READ_ONLY != 0 <==> !Writeable(mode)
  {
  }

  lemma DirectoryBitKept(a: bv64, b: bv64)
    requires (a ^ b) & FILE_DIRECTORY == 0
    ensures a & FILE_DIRECTORY != 0 <==> b & FILE_DIRECTORY != 0
  {
  }

  lemma TypeBitsKept(mode: bv32, perm: bv32)
    requires perm == 0x16D || perm == 0x1FF || perm == 0x124 || perm == 0x1B6
    ensures ((mode & MODE_TYPE_MASK) | perm) & MODE_TYPE_MASK == mode & MODE_TYPE_MASK
    ensures Writeable((mode & MODE_TYPE_MASK) | perm) <==> perm == 0x1FF || perm == 0x1B6
  {
  }
}
