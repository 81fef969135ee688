/**
  Reading and writing regular files of the Virtio Filesystem in chunks that the
  server accepts. The specification is one large transfer.

  The server side is the file's contents. A request may fail, and then has no
  effect; a read may be short, but is empty only at the end of the file; a write
  may be short.
*/
module ChunkedIo {
  import opened Efi

  /** Length of `c` after writing `n` bytes at offset `at`. */
  function OverlayLength(c: seq<Byte>, at: nat, n: nat): nat {
    if n > 0 && at + n > |c| then at + n else |c|
  }

  /** `c` with `d` written at offset `at`; a gap is filled with zeros. */
  function Overlay(c: seq<Byte>, at: nat, d: seq<Byte>): (r: seq<Byte>)
    ensures |r| == OverlayLength(c, at, |d|)
    ensures forall i :: 0 <= i < |r| ==>
              r[i] == if at <= i < at + |d| then d[i - at] else if i < |c| then c[i] else 0
  {
    seq(OverlayLength(c, at, |d|), i requires 0 <= i < OverlayLength(c, at, |d|) =>
      if at <= i < at + |d| then d[i - at] else if i < |c| then c[i] else 0)
  }

  /** Two adjacent writes are one write. */
  lemma OverlayComposes(c: seq<Byte>, at: nat, a: seq<Byte>, b: seq<Byte>)
    ensures Overlay(Overlay(c, at, a), at + |a|, b) == Overlay(c, at, a + b)
  {
    var one, mid := Overlay(c, at, a + b), Overlay(c, at, a);
    var two := Overlay(mid, at + |a|, b);
    assert |one| == |two|;
    forall i | 0 <= i < |one| ensures one[i] == two[i] {
    }
  }

  /** What is written is what is read back. */
  lemma OverlayReadsBack(c: seq<Byte>, at: nat, d: seq<Byte>)
    requires d != []
    ensures at + |d| <= |Overlay(c, at, d)| && Overlay(c, at, d)[at..at + |d|] == d
  {
  }

  lemma NextPrefix(data: seq<Byte>, t: nat, w: nat, n: nat)
    requires n <= w && t + w <= |data|
    ensures data[..t] + data[t..t + w][..n] == data[..t + n]
  {
  }

  class File {
    const maxWrite: nat
    const isDirectory: bool
    const isOpenForWriting: bool
    var filePosition: nat
    var contents: seq<Byte>            // on the server
    ghost var requests: seq<nat>       // sizes of the requests sent
    ghost var failures: nat            // requests that the server failed, or a write it took nothing of

    ghost predicate Valid()
      reads this
    {
      // FUSE_INIT refuses a smaller limit.
      0x1000 <= maxWrite <= MAX_UINT32
    }

    constructor (maxWrite: nat, isDirectory: bool, isOpenForWriting: bool, contents: seq<Byte>)
      requires 0x1000 <= maxWrite <= MAX_UINT32
      ensures Valid() && filePosition == 0 && this.contents == contents && requests == [] && failures == 0
    {
      this.maxWrite := maxWrite;
      this.isDirectory := isDirectory;
      this.isOpenForWriting := isOpenForWriting;
      filePosition := 0;
      this.contents := contents;
      requests := [];
      failures := 0;
    }

    /** All requests since `was` ask for 1 to maxWrite bytes. */
    ghost predicate ProperRequests(was: nat)
      reads this
    {
      was <= |requests| && forall i :: was <= i < |requests| ==> 1 <= requests[i] <= maxWrite
    }

    /** FUSE_READ of `size` bytes into the buffer at `at`. */
    method FuseRead(offset: nat, size: nat, buffer: array<Byte>, at: nat) returns (status: Status, n: nat)
      requires at + size <= buffer.Length
      modifies this`requests, this`failures, buffer
      ensures requests == old(requests) + [size]
      ensures failures == old(failures) + if status.IsError() then 1 else 0
      ensures status.IsError() ==> buffer[..] == old(buffer[..])
      ensures !status.IsError() ==>
                && n <= size
                && (n > 0 ==> offset + n <= |contents|)
                && (n == 0 ==> size == 0 || offset >= |contents|)
                && forall i :: 0 <= i < buffer.Length ==>
                     buffer[i] == if at <= i < at + n then contents[offset + (i - at)] else old(buffer[i])
    {
      requests := requests + [size];
      status, n := *, 0;
      failures := failures + if status.IsError() then 1 else 0;
      if status.IsError() || size == 0 || offset >= |contents| {
        return;
      }
      n :| 1 <= n <= size && offset + n <= |contents|;
      forall k | 0 <= k < n {
        buffer[at + k] := contents[offset + k];
      }
    }

    /** FUSE_WRITE; the server takes a prefix of the data. */
    method FuseWrite(offset: nat, data: seq<Byte>) returns (status: Status, n: nat)
      modifies this`requests, this`contents, this`failures
      ensures requests == old(requests) + [|data|]
      ensures failures == old(failures) + if status.IsError() || n == 0 then 1 else 0
      ensures status.IsError() ==> contents == old(contents)
      ensures !status.IsError() ==> n <= |data| && contents == Overlay(old(contents), offset, data[..n])
    {
      requests := requests + [|data|];
      status, n := *, 0;
      if !status.IsError() {
        n :| 0 <= n <= |data|;
      }
      failures := failures + if status.IsError() || n == 0 then 1 else 0;
      if status.IsError() {
        return;
      }
      contents := Overlay(contents, offset, data[..n]);
    }

    /** FUSE_GETATTR */
    method FuseGetAttr() returns (status: Status, size: nat)
      modifies this`failures
      ensures size == |contents|
      ensures failures == old(failures) + if status.IsError() then 1 else 0
    {
      status, size := *, |contents|;
      failures := failures + if status.IsError() then 1 else 0;
    }

    /** ReadRegularFile(). */
    method Read(size: nat, buffer: array<Byte>) returns (status: Status, size': nat)
      requires Valid() && size <= buffer.Length
      modifies this`filePosition, this`requests, this`failures, buffer
      ensures ProperRequests(|old(requests)|) && failures >= old(failures)
      ensures old(filePosition) > |contents| ==> status == DeviceError
      ensures failures == old(failures) && old(filePosition) <= |contents| ==>
                status == Success && size' == Min(size, |contents| - old(filePosition))
      ensures status == Success ==>
                && old(filePosition) + size' <= |contents| && size' <= size
                && filePosition == old(filePosition) + size'
                && forall i :: 0 <= i < buffer.Length ==>
                     buffer[i] == if i < size' then contents[old(filePosition) + i] else old(buffer[i])
      ensures status != Success ==> filePosition == old(filePosition) && buffer[..] == old(buffer[..])
    {
      size' := size;
      var attrStatus, fileSize := FuseGetAttr();
      if attrStatus.IsError() || filePosition > fileSize {
        return DeviceError, size';
      }
      status := Success;
      var transferred, left := 0, size;
      while left > 0
        invariant 0 <= left && transferred + left == size
        invariant filePosition == old(filePosition) && filePosition + transferred <= |contents|
        invariant forall i :: 0 <= i < buffer.Length ==>
                    buffer[i] == if i < transferred then contents[filePosition + i] else old(buffer[i])
        invariant ProperRequests(|old(requests)|)
        invariant !status.IsError() && failures == old(failures)
      {
        var readSize := Min(maxWrite, left);
        var n;
        status, n := FuseRead(filePosition + transferred, readSize, buffer, transferred);
        if status.IsError() || n == 0 {
          break;
        }
        transferred := transferred + n;
        left := left - n;
      }
      size' := transferred;
      filePosition := filePosition + transferred;
      status := if transferred > 0 || !status.IsError() then Success else status;
    }

    /** One request of a write; `was` is the file before the first one. */
    method WriteChunk(data: seq<Byte>, transferred: nat, left: nat, ghost was: seq<Byte>) returns (status: Status, writeSize: nat)
      requires Valid() && left > 0 && transferred + left == |data|
      requires contents == Overlay(was, filePosition, data[..transferred])
      modifies this`requests, this`contents, this`failures
      ensures failures == old(failures) + if status.IsError() then 1 else 0
      ensures |requests| == |old(requests)| + 1 && requests[..|old(requests)|] == old(requests)
      ensures 1 <= requests[|old(requests)|] <= maxWrite
      ensures status.IsError() ==> contents == Overlay(was, filePosition, data[..transferred])
      ensures !status.IsError() ==>
                0 < writeSize <= left && contents == Overlay(was, filePosition, data[..transferred + writeSize])
    {
      writeSize := Min(maxWrite, left);
      var chunk := data[transferred..transferred + writeSize];
      status, writeSize := FuseWrite(filePosition + transferred, chunk);
      if status.IsError() {
        return;
      }
      OverlayComposes(was, filePosition, data[..transferred], chunk[..writeSize]);
      NextPrefix(data, transferred, |chunk|, writeSize);
      if writeSize == 0 {
        // Progress should have been made.
        status := DeviceError;
      }
    }

    /** VirtioFsSimpleFileWrite(). */
    method Write(data: seq<Byte>) returns (status: Status, size': nat)
      requires Valid()
      modifies this`filePosition, this`requests, this`contents, this`failures
      ensures ProperRequests(|old(requests)|) && failures >= old(failures)
      ensures isDirectory ==> status == Unsupported
      ensures !isDirectory && !isOpenForWriting ==> status == AccessDenied
      ensures isDirectory || !isOpenForWriting ==> contents == old(contents) && filePosition == old(filePosition) && size' == |data|
      ensures !isDirectory && isOpenForWriting ==>
                && size' <= |data|
                && contents == Overlay(old(contents), old(filePosition), data[..size'])
                && filePosition == old(filePosition) + size'
                && (!status.IsError() <==> size' == |data|)
                && (size' == |data| <==> failures == old(failures))
    {
      size' := |data|;
      if isDirectory {
        return Unsupported, size';
      }
      if !isOpenForWriting {
        return AccessDenied, size';
      }
      status := Success;
      var transferred, left := 0, |data|;
      while left > 0
        invariant 0 <= left && 0 <= transferred && transferred + left == |data|
        invariant filePosition == old(filePosition)
        invariant contents == Overlay(old(contents), filePosition, data[..transferred])
        invariant ProperRequests(|old(requests)|)
        invariant !status.IsError() && failures == old(failures)
      {
        var writeSize;
        status, writeSize := WriteChunk(data, transferred, left, old(contents));
        if status.IsError() {
          break;
        }
        transferred := transferred + writeSize;
        left := left - writeSize;
      }
      size' := transferred;
      filePosition := filePosition + transferred;
    }

    /** VirtioFsSimpleFileSetPosition() on a regular file: the largest value means the end. */
    method SetPosition(position: nat) returns (status: Status)
      requires !isDirectory && position <= MAX_UINT64
      modifies this`filePosition, this`failures
      ensures position < MAX_UINT64 ==> status == Success && filePosition == position && failures == old(failures)
      ensures position == MAX_UINT64 ==> filePosition == if status.IsError() then old(filePosition) else |contents|
      ensures status.IsError() <==> failures > old(failures)
    {
      if position < MAX_UINT64 {
        filePosition := position;
        return Success;
      }
      var attrStatus, size := FuseGetAttr();
      if attrStatus.IsError() {
        return attrStatus;
      }
      filePosition := size;
      return Success;
    }

    /** Write, seek back and read: if no request fails, the data comes back. */
    method WriteSeekRead(data: seq<Byte>, buffer: array<Byte>) returns (ok: bool)
      requires Valid() && !isDirectory && isOpenForWriting
      requires buffer.Length == |data| && filePosition < MAX_UINT64
      modifies this, buffer
      ensures ok ==> buffer[..] == data
      ensures failures == old(failures) && (data != [] || old(filePosition) <= |old(contents)|) ==> ok
    {
      var start := filePosition;
      var status, n := Write(data);
      assert data[..|data|] == data;
      if status.IsError() {
        return false;
      }
      if data != [] {
        OverlayReadsBack(old(contents), start, data);
      }
      var _ := SetPosition(start);
      status, n := Read(|data|, buffer);
      if status != Success || n != |data| {
        return false;
      }
      if data != [] {
        forall i | 0 <= i < |data| ensures buffer[i] == data[i] {
          assert contents[start..start + |data|][i] == data[i];
        }
      }
      return true;
    }
  }
}
