/**
  GetInfo() and SetInfo() for EFI_FILE_INFO. The buffer holds a size, the scalar fields
  and a file name that is a NUL-terminated array reaching to the end of the buffer.
*/
module SetInfo {
  import opened Efi
  import opened PathCanon
  import opened PathAppend
  import opened FileInfo
  import opened Namespace
  import opened FuseSession

  /** EFI_FILE_INFO; `name` is the whole of its last field, terminator included. */
  datatype Buffer = Buffer(size: nat, info: Info, name: seq<Char16>)

  /** The C string at the start of an array. */
  function CString(s: seq<Char16>): (r: seq<Char16>)
    ensures |r| <= |s|
  {
    if s == [] || s[0] == NUL then [] else [s[0]] + CString(s[1..])
  }

  /** The buffer has `bufferSize` bytes. */
  predicate Holds(buffer: Buffer, bufferSize: nat) {
    bufferSize >= NAME_OFFSET ==> |buffer.name| == (bufferSize - NAME_OFFSET) / 2
  }

  predicate WellFormed(buffer: Buffer, bufferSize: nat) {
    && bufferSize == buffer.size == NAME_OFFSET + 2 * |buffer.name|
    && buffer.name != [] && buffer.name[|buffer.name| - 1] == NUL
  }

  /** ValidateInfoStructure() for EFI_FILE_INFO. Behind it, reading the name stops within the buffer. */
  method ValidateInfoStructure(bufferSize: nat, buffer: Buffer) returns (status: Status)
    requires Holds(buffer, bufferSize)
    ensures status == Success <==> WellFormed(buffer, bufferSize)
    ensures status == Success ==> |CString(buffer.name)| < |buffer.name|
    ensures status == BadBufferSize <==> bufferSize < NAME_OFFSET + 2
    ensures status == Success || status == BadBufferSize || status == InvalidParameter
  {
    if bufferSize < NAME_OFFSET + 2 {
      return BadBufferSize;
    }
    if buffer.size != bufferSize {
      return InvalidParameter;
    }
    var nameFieldBytes := bufferSize - NAME_OFFSET;
    if nameFieldBytes % 2 != 0 {
      return InvalidParameter;
    }
    var nameFieldChar16s := nameFieldBytes / 2;
    if buffer.name[nameFieldChar16s - 1] != NUL {
      return InvalidParameter;
    }
    Terminated(buffer.name);
    return Success;
  }

  lemma {:induction false} Terminated(s: seq<Char16>)
    requires s != [] && s[|s| - 1] == NUL
    ensures |CString(s)| < |s|
  {
    if s[0] != NUL {
      Terminated(s[1..]);
    }
  }

  lemma {:induction false} CStringOfName(c: seq<Char16>)
    requires NUL !in c
    ensures CString(c + [NUL]) == c
  {
    if c != [] {
      CStringOfName(c[1..]);
      assert (c + [NUL])[1..] == c[1..] + [NUL];
    }
  }

  /**
    GetFileInfo(): `attr` is what the server answers to FUSE_GETATTR, unless
    `getAttr` is an error.
  */
  method GetFileInfo(f: File, bufferSize: nat, lib: TimeLib, getAttr: Status, attr: FuseAttr)
    returns (status: Status, size: nat, buffer: Option<Buffer>)
    requires FileOk(f)
    ensures size == NAME_OFFSET + BasenameSize(f.stack)
    ensures status == BufferTooSmall <==> bufferSize < size
    ensures status == Success <==> bufferSize >= size && !getAttr.IsError() && AttrToFileInfo(lib, attr).Some?
    ensures status == Success ==>
              && AttrToFileInfo(lib, attr).Some?
              && buffer == Some(Buffer(size, AttrToFileInfo(lib, attr).value, Basename(f.stack) + [NUL]))
  {
    buffer := None;
    var s, basename, basenameSize := GetBasename(f.Path(), 0, f.stack);
    size := NAME_OFFSET + basenameSize;
    if size > bufferSize {
      return BufferTooSmall, size, buffer;
    }
    s, basename, basenameSize := GetBasename(f.Path(), basenameSize, f.stack);
    status := getAttr;
    if !status.IsError() {
      var info := ReadAttributes(lib, attr);
      if info == None {
        status := Unsupported;
      } else {
        status := Success;
        buffer := Some(Buffer(size, info.value, basename + [NUL]));
      }
    }
    status := if status == BufferTooSmall then DeviceError else status;
  }

  /** What the server is asked to change, according to the file as it was opened. */
  ghost function Change(f: File, info: Info, lib: TimeLib, attr: FuseAttr): Update {
    UpdateAttributes(lib, attr, f.isDirectory, f.isOpenForWriting, info)
  }

  /** The name in the buffer is the one that the file has. */
  predicate SameName(f: File, buffer: Buffer) {
    RenameTarget(f, CString(buffer.name)) == Appended(Place(f.stack, false))
  }

  /** The file may be renamed to what the buffer says, as far as the driver is concerned, and the server has it do so. */
  ghost predicate WillMove(files: seq<File>, i: nat, t: Tree, kinds: map<nat, Kind>, buffer: Buffer)
    requires i < |files|
  {
    var target := RenameTarget(files[i], CString(buffer.name));
    target.Appended? && MayRename(files, i, t, kinds, target.place.stack)
  }

  /** What comes of the attributes: nothing without the current ones, and otherwise what the difference to them demands. */
  predicate AttributesDone(status: Status, sent: Option<SetAttr>, getAttr: Status, setAttr: Status, change: Update) {
    if getAttr.IsError() then status == getAttr && sent == None
    else
      match change
      case Refuse(s) => status == s && sent == None
      case NoUpdate => status == Success && sent == None
      case Send(request) => status == setAttr && sent == Some(request)
  }

  /** The rename changes neither the file's type nor its access mode. */
  method RenameFirst(fs: FileSystem, i: nat, buffer: Buffer) returns (status: Status, moved: bool)
    requires fs.Valid() && i < |fs.openFiles|
    modifies fs`openFiles, fs`tree, fs`net, fs`lost, fs`refusals
    ensures fs.Valid() && |fs.openFiles| == |old(fs.openFiles)|
    ensures fs.openFiles[i] == old(fs.openFiles)[i].(stack := fs.openFiles[i].stack)
    ensures !moved ==> fs.openFiles == old(fs.openFiles) && fs.tree == old(fs.tree)
    ensures SameName(old(fs.openFiles)[i], buffer) ==> status == Success && !moved
    ensures moved ==> status == Success
    ensures fs.refusals >= old(fs.refusals)
    ensures fs.refusals == old(fs.refusals) ==> (moved <==> WillMove(old(fs.openFiles), i, old(fs.tree), fs.kinds, buffer))
  {
    status, moved := fs.Rename(i, CString(buffer.name));
  }

  /** UpdateAttributes() with its two requests. */
  method ChangeAttributes(f: File, info: Info, lib: TimeLib, getAttr: Status, attr: FuseAttr, setAttr: Status)
    returns (status: Status, sent: Option<SetAttr>)
    ensures AttributesDone(status, sent, getAttr, setAttr, Change(f, info, lib, attr))
    ensures status == Success && sent == None ==> Change(f, info, lib, attr) == NoUpdate
  {
    RefusalIsError(lib, attr, f.isDirectory, f.isOpenForWriting, info);
    if getAttr.IsError() {
      return getAttr, None;
    }
    var change := CollectUpdates(lib, attr, f.isDirectory, f.isOpenForWriting, info);
    match change {
      case Refuse(s) => return s, None;
      case NoUpdate => return Success, None;
      case Send(request) => return setAttr, Some(request);
    }
  }

  /** SetFileInfo(): first the rename, then the attributes; `sent` is the FUSE_SETATTR request. */
  method SetFileInfo(fs: FileSystem, i: nat, bufferSize: nat, buffer: Buffer,
                     lib: TimeLib, getAttr: Status, attr: FuseAttr, setAttr: Status)
    returns (status: Status, moved: bool, sent: Option<SetAttr>)
    requires fs.Valid() && i < |fs.openFiles| && Holds(buffer, bufferSize)
    modifies fs`openFiles, fs`tree, fs`net, fs`lost, fs`refusals
    ensures fs.Valid()
    ensures !moved ==> fs.openFiles == old(fs.openFiles) && fs.tree == old(fs.tree)
    ensures SameName(old(fs.openFiles)[i], buffer) ==> !moved
    ensures sent.Some? ==> Change(old(fs.openFiles)[i], buffer.info, lib, attr) == Send(sent.value)
    ensures status == Success && sent == None ==> Change(old(fs.openFiles)[i], buffer.info, lib, attr) == NoUpdate
    ensures !WellFormed(buffer, bufferSize) ==> status.IsError() && !moved && sent == None
    ensures WellFormed(buffer, bufferSize) && fs.refusals == old(fs.refusals) ==>
              (moved <==> WillMove(old(fs.openFiles), i, old(fs.tree), fs.kinds, buffer))
    ensures || AttributesDone(status, sent, getAttr, setAttr, Change(old(fs.openFiles)[i], buffer.info, lib, attr))
            || (!moved && !(WellFormed(buffer, bufferSize) && SameName(old(fs.openFiles)[i], buffer)))
  {
    moved, sent := false, None;
    status := ValidateInfoStructure(bufferSize, buffer);
    if status.IsError() {
      return;
    }
    status, moved := RenameFirst(fs, i, buffer);
    if status.IsError() {
      return;
    }
    status, sent := ChangeAttributes(fs.openFiles[i], buffer.info, lib, getAttr, attr, setAttr);
  }

  /** The name that GetInfo() reports is the name that the file has, for the root as well. */
  lemma ReportedNameIsSame(f: File, buffer: Buffer)
    requires FileOk(f) && buffer.name == Basename(f.stack) + [NUL]
    ensures SameName(f, buffer)
    ensures buffer.size == NAME_OFFSET + BasenameSize(f.stack) ==> WellFormed(buffer, buffer.size)
  {
    var stack := f.stack;
    if stack != [] {
      assert ValidComponent(Last(stack));
      ValidHasNoSlash(Last(stack));
      RenameToBasename(stack);
    }
    CStringOfName(Basename(stack));
  }

  /** SetInfo() with what GetInfo() delivered renames nothing and sends no FUSE_SETATTR. */
  method SetUnmodifiedInfo(fs: FileSystem, i: nat, bufferSize: nat, lib: TimeLib, getAttr: Status, attr: FuseAttr)
    returns (got: Status, status: Status, moved: bool, sent: Option<SetAttr>)
    requires fs.Valid() && i < |fs.openFiles|
    modifies fs`openFiles, fs`tree, fs`net, fs`lost, fs`refusals
    ensures got == Success && !getAttr.IsError() ==> status == Success
    ensures !moved && sent == None
    ensures fs.Valid() && fs.openFiles == old(fs.openFiles) && fs.tree == old(fs.tree)
  {
    status, moved, sent := NotReady, false, None;
    var f := fs.openFiles[i];
    var size, buffer;
    got, size, buffer := GetFileInfo(f, bufferSize, lib, getAttr, attr);
    if got == Success {
      ReportedNameIsSame(f, buffer.value);
      UnmodifiedInfoIsNoUpdate(lib, attr, f.isDirectory, f.isOpenForWriting);
      status, moved, sent := SetFileInfo(fs, i, size, buffer.value, lib, getAttr, attr, Success);
    }
  }
}
