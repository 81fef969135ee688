/**
  Reading a directory of the Virtio Filesystem. The driver fetches the stream in
  chunks of the server's choosing, keeps what UEFI can express in a cache of at
  most 256 entries, and hands out one entry per call. The specification is the
  plain list of convertible entries.

  The directory does not change while it is read. Its entries are separated by
  cookies, the first of which is zero; a read at a cookie returns whole records
  from there on, as many as the server likes within the buffer, and nothing only
  at the end.
*/
module DirCache {
  import opened Efi
  import opened FileInfo

  const MAX_FILE_INFO: nat := 256

  /**
    VIRTIO_FS_FUSE_DIRENTPLUS_RESPONSE; `bytes` is the length of the record in the buffer.
  */
  datatype Dirent = Dirent(name: seq<Byte>, nodeId: nat, cookieForNextEntry: nat, attr: FuseAttr, bytes: nat)

  /** One EFI_FILE_INFO of the cache. */
  datatype Entry = Entry(size: nat, name: seq<Byte>, info: Info)

  ghost predicate NameSupported(name: seq<Byte>) {
    forall i :: 0 <= i < |name| ==> 0x20 <= name[i] <= 0x7E && name[i] != SLASH && name[i] != BACKSLASH
  }

  function EntrySize(nameLen: nat): nat {
    NAME_OFFSET + (nameLen + 1) * 2
  }

  /** The nodes that a READDIRPLUS chunk counts as looked up; "." and ".." come without a node. */
  function Nodes(chunk: seq<Dirent>): multiset<nat> {
    if chunk == [] then multiset{}
    else Node(chunk[0]) + Nodes(chunk[1..])
  }

  function Node(d: Dirent): multiset<nat> {
    if d.nodeId == 0 then multiset{} else multiset{d.nodeId}
  }

  /** Zero stands for a name length that is not valid. */
  function SizeFor(recordSizes: seq<nat>, nameLen: nat): nat {
    if nameLen < |recordSizes| then recordSizes[nameLen] else 0
  }

  /** The name has a length that the server may send. */
  predicate NameFits(recordSizes: seq<nat>, nameLimit: nat, d: Dirent) {
    SizeFor(recordSizes, |d.name|) != 0 && |d.name| <= nameLimit
  }

  /** The records from the first malformed one on: the loop over a chunk does not get there. */
  function Dropped(recordSizes: seq<nat>, nameLimit: nat, s: seq<Dirent>): seq<Dirent> {
    if s == [] then []
    else if NameFits(recordSizes, nameLimit, s[0]) then Dropped(recordSizes, nameLimit, s[1..])
    else s
  }

  /** What a log of chunks has lost: each chunk from its first malformed record on. */
  ghost function LostIn(recordSizes: seq<nat>, nameLimit: nat, chunks: seq<seq<Dirent>>): multiset<nat> {
    if chunks == [] then multiset{}
    else
      var last := |chunks| - 1;
      LostIn(recordSizes, nameLimit, chunks[..last]) + Nodes(Dropped(recordSizes, nameLimit, chunks[last]))
  }

  predicate SameLog(log: seq<seq<Dirent>>, chunks: seq<seq<Dirent>>) {
    log == chunks
  }

  /** `lost` is what the chunks have lost. The log is named twice so that only LeavesExactly unfolds the sum. */
  ghost predicate Leaves(recordSizes: seq<nat>, nameLimit: nat, chunks: seq<seq<Dirent>>, lost: multiset<nat>) {
    forall log :: SameLog(log, chunks) ==> lost == LostIn(recordSizes, nameLimit, log)
  }

  lemma LeavesExactly(recordSizes: seq<nat>, nameLimit: nat, chunks: seq<seq<Dirent>>, lost: multiset<nat>)
    ensures Leaves(recordSizes, nameLimit, chunks, lost) <==> lost == LostIn(recordSizes, nameLimit, chunks)
  {
    assert SameLog(chunks, chunks);
  }

  lemma LostWithOneMore(recordSizes: seq<nat>, nameLimit: nat, chunks: seq<seq<Dirent>>, chunk: seq<Dirent>)
    ensures LostIn(recordSizes, nameLimit, chunks + [chunk]) ==
            LostIn(recordSizes, nameLimit, chunks) + Nodes(Dropped(recordSizes, nameLimit, chunk))
  {
    assert (chunks + [chunk])[..|chunks|] == chunks;
  }

  lemma LeavesOneMore(recordSizes: seq<nat>, nameLimit: nat, chunks: seq<seq<Dirent>>, lost: multiset<nat>, chunk: seq<Dirent>)
    requires Leaves(recordSizes, nameLimit, chunks, lost)
    ensures Leaves(recordSizes, nameLimit, chunks + [chunk], lost + Nodes(Dropped(recordSizes, nameLimit, chunk)))
  {
    LeavesExactly(recordSizes, nameLimit, chunks, lost);
    LostWithOneMore(recordSizes, nameLimit, chunks, chunk);
    LeavesExactly(recordSizes, nameLimit, chunks + [chunk], lost + Nodes(Dropped(recordSizes, nameLimit, chunk)));
  }

  lemma LostWithGoodOne(recordSizes: seq<nat>, nameLimit: nat, chunks: seq<seq<Dirent>>)
    requires chunks != [] && Dropped(recordSizes, nameLimit, chunks[|chunks| - 1]) == []
    ensures LostIn(recordSizes, nameLimit, chunks) == LostIn(recordSizes, nameLimit, chunks[..|chunks| - 1])
  {
    assert Nodes([]) == multiset{};
  }

  /** Well-formed chunks add nothing to what a log has lost. */
  lemma {:induction false} NothingLost(recordSizes: seq<nat>, nameLimit: nat, chunks: seq<seq<Dirent>>, from: nat)
    requires from <= |chunks| && forall k :: from <= k < |chunks| ==> Dropped(recordSizes, nameLimit, chunks[k]) == []
    ensures LostIn(recordSizes, nameLimit, chunks) == LostIn(recordSizes, nameLimit, chunks[..from])
    decreases |chunks|
  {
    if from == |chunks| {
      assert chunks[..from] == chunks;
    } else {
      var front := chunks[..|chunks| - 1];
      LostWithGoodOne(recordSizes, nameLimit, chunks);
      NothingLost(recordSizes, nameLimit, front, from);
      assert front[..from] == chunks[..from];
    }
  }

  lemma {:induction false} NodesEmpty(s: seq<Dirent>)
    ensures Nodes(s) == multiset{} <==> forall i :: 0 <= i < |s| ==> s[i].nodeId == 0
  {
    if s != [] {
      NodesEmpty(s[1..]);
      assert s[0].nodeId != 0 ==> Nodes(s)[s[0].nodeId] > 0;
      assert Nodes(s[1..]) <= Nodes(s);
      assert Nodes(s[1..]) != multiset{} ==> exists i :: 0 <= i < |s[1..]| && s[1..][i].nodeId != 0;
      assert forall i :: 0 <= i < |s[1..]| ==> s[1..][i] == s[i + 1];
    }
  }

  lemma AddToBoth(a: multiset<nat>, b: multiset<nat>, c: multiset<nat>)
    requires a <= b
    ensures c + a <= c + b
  {
  }

  lemma {:induction false} NodesOfPrefix(s: seq<Dirent>, n: nat)
    requires n <= |s|
    ensures Nodes(s[..n]) <= Nodes(s)
    decreases n
  {
    if n > 0 {
      var front, rest := s[..n], s[1..];
      assert front[0] == s[0] && front[1..] == rest[..n - 1];
      NodesOfPrefix(rest, n - 1);
      AddToBoth(Nodes(front[1..]), Nodes(rest), Node(s[0]));
      assert Nodes(front) == Node(s[0]) + Nodes(front[1..]);
      assert Nodes(s) == Node(s[0]) + Nodes(rest);
    }
  }

  lemma {:induction false} DroppedNothing(recordSizes: seq<nat>, nameLimit: nat, s: seq<Dirent>)
    ensures Dropped(recordSizes, nameLimit, s) == [] <==>
            forall i :: 0 <= i < |s| ==> NameFits(recordSizes, nameLimit, s[i])
  {
    if s != [] {
      var rest := s[1..];
      DroppedNothing(recordSizes, nameLimit, rest);
      assert forall i :: 0 <= i < |rest| ==> rest[i] == s[i + 1];
      if forall i :: 0 <= i < |rest| ==> NameFits(recordSizes, nameLimit, rest[i]) {
        forall i | 1 <= i < |s| ensures NameFits(recordSizes, nameLimit, s[i]) {
          assert s[i] == rest[i - 1];
        }
      }
    }
  }

  /** What a shorter chunk loses comes first in what a longer one loses. */
  lemma {:induction false} DroppedOfPrefix(recordSizes: seq<nat>, nameLimit: nat, s: seq<Dirent>, n: nat)
    requires n <= |s|
    ensures |Dropped(recordSizes, nameLimit, s[..n])| <= |Dropped(recordSizes, nameLimit, s)|
    ensures var d := Dropped(recordSizes, nameLimit, s[..n]); d == Dropped(recordSizes, nameLimit, s)[..|d|]
    decreases n
  {
    if n > 0 {
      assert s[..n][0] == s[0];
      if NameFits(recordSizes, nameLimit, s[0]) {
        DroppedOfPrefix(recordSizes, nameLimit, s[1..], n - 1);
        assert s[..n][1..] == s[1..][..n - 1];
      }
    }
  }

  /** Well-formed records in front make no difference. */
  lemma {:induction false} DroppedAfter(recordSizes: seq<nat>, nameLimit: nat, s: seq<Dirent>, n: nat)
    requires n <= |s| && forall i :: 0 <= i < n ==> NameFits(recordSizes, nameLimit, s[i])
    ensures Dropped(recordSizes, nameLimit, s[n..]) == Dropped(recordSizes, nameLimit, s)
    decreases n
  {
    if n == 0 {
      assert s[0..] == s;
    } else {
      DroppedAfter(recordSizes, nameLimit, s[1..], n - 1);
      assert s[1..][n - 1..] == s[n..];
    }
  }

  /** The longest run of whole records that fits into `room` bytes. */
  function Fitting(s: seq<Dirent>, room: nat): seq<Dirent> {
    if s == [] || s[0].bytes > room then [] else [s[0]] + Fitting(s[1..], room - s[0].bytes)
  }

  lemma {:induction false} FittingIsPrefix(s: seq<Dirent>, room: nat)
    ensures |Fitting(s, room)| <= |s| && Fitting(s, room) == s[..|Fitting(s, room)|]
    ensures Bytes(Fitting(s, room)) <= room
  {
    if s != [] && s[0].bytes <= room {
      var rest := Fitting(s[1..], room - s[0].bytes);
      FittingIsPrefix(s[1..], room - s[0].bytes);
      assert Fitting(s, room)[1..] == rest;
    }
  }

  lemma {:induction false} FittingIsLongest(s: seq<Dirent>, room: nat, n: nat)
    requires n <= |s| && Bytes(s[..n]) <= room
    ensures n <= |Fitting(s, room)|
    decreases n
  {
    if n > 0 {
      assert s[..n][0] == s[0] && s[..n][1..] == s[1..][..n - 1];
      FittingIsLongest(s[1..], room - s[0].bytes, n - 1);
    }
  }

  lemma {:induction false} BytesOfSuffix(s: seq<Dirent>, n: nat)
    requires n <= |s|
    ensures Bytes(s[n..]) <= Bytes(s)
    decreases n
  {
    if n == 0 {
      assert s[0..] == s;
    } else {
      BytesOfSuffix(s[1..], n - 1);
      assert s[1..][n - 1..] == s[n..];
    }
  }

  /** A run of whole records that fits begins the longest such run. */
  lemma FittingBeginsWith(part: seq<Dirent>, s: seq<Dirent>, room: nat)
    requires part <= s && Bytes(part) <= room
    ensures part <= Fitting(s, room)
  {
    assert part == s[..|part|];
    FittingIsLongest(s, room, |part|);
    FittingIsPrefix(s, room);
  }

  lemma PrefixLosesAtMost(recordSizes: seq<nat>, nameLimit: nat, part: seq<Dirent>, whole: seq<Dirent>)
    requires part <= whole
    ensures Nodes(Dropped(recordSizes, nameLimit, part)) <= Nodes(Dropped(recordSizes, nameLimit, whole))
  {
    assert part == whole[..|part|];
    DroppedOfPrefix(recordSizes, nameLimit, whole, |part|);
    NodesOfPrefix(Dropped(recordSizes, nameLimit, whole), |Dropped(recordSizes, nameLimit, part)|);
  }

  /** A chunk whose first `n` records are well-formed loses no more than the longest chunk that begins behind them. */
  lemma LosesAsPrefix(recordSizes: seq<nat>, nameLimit: nat, chunk: seq<Dirent>, n: nat, rest: seq<Dirent>, room: nat)
    requires n <= |chunk| && Bytes(chunk) <= room && chunk[n..] <= rest
    requires forall i :: 0 <= i < n ==> NameFits(recordSizes, nameLimit, chunk[i])
    ensures Nodes(Dropped(recordSizes, nameLimit, chunk)) <= Nodes(Dropped(recordSizes, nameLimit, Fitting(rest, room)))
  {
    DroppedAfter(recordSizes, nameLimit, chunk, n);
    BytesOfSuffix(chunk, n);
    FittingBeginsWith(chunk[n..], rest, room);
    PrefixLosesAtMost(recordSizes, nameLimit, chunk[n..], Fitting(rest, room));
  }

  /** Handing out the first of the rest keeps the whole. */
  lemma NextOfRest<T>(out: seq<T>, rest: seq<T>, all: seq<T>)
    requires out + rest == all
    ensures rest != [] ==> rest[0] == all[|out|] && (out + [rest[0]]) + rest[1..] == all
  {
  }

  lemma SliceJoin<T>(s: seq<T>, i: nat, j: nat)
    requires i <= j <= |s|
    ensures s[i..j] + s[j..] == s[i..]
  {
  }

  class Directory {
    const entries: seq<Dirent>         // on the server
    const nameLimit: nat               // from FUSE_STATFS
    const recordSizes: seq<nat>        // VIRTIO_FS_FUSE_DIRENTPLUS_RESPONSE_SIZE, by name length
    const headerSize: nat
    const lib: TimeLib                 // converts times
    var filePosition: nat              // cookie
    var cache: seq<Entry>
    var nextFileInfo: nat
    ghost var position: nat            // how many stream entries lie before filePosition
    ghost var owed: multiset<nat>      // nodes looked up and not yet forgotten
    ghost var received: seq<seq<Dirent>>  // every chunk that the server has sent
    ghost var receivedAt: seq<nat>     // and the stream entry where it began
    ghost var failures: nat            // requests and allocations that failed, and chunks that ended in a fragment

    function RecordSize(nameLen: nat): nat {
      SizeFor(recordSizes, nameLen)
    }

    /** The driver's buffer can take a cacheful of the longest records. */
    function BufferSize(): nat {
      MAX_FILE_INFO * RecordSize(nameLimit)
    }

    /** The cookie that stands before entry i. */
    function Cookie(i: nat): nat
      requires i <= |entries|
    {
      if i == 0 then 0 else entries[i - 1].cookieForNextEntry
    }

    ghost predicate Distinct(i: nat, j: nat) {
      i < j <= |entries| ==> Cookie(i) != Cookie(j)
    }

    /** Cookies tell the positions of the stream apart. */
    ghost predicate CookiesDiffer() {
      forall i, j :: Distinct(i, j)
    }

    ghost predicate Complete(i: nat) {
      i < |entries| ==>
        && entries[i].bytes >= headerSize
        && (RecordSize(|entries[i].name|) != 0 ==> entries[i].bytes == RecordSize(|entries[i].name|))
    }

    /** Records are complete, and as long as their names imply. */
    ghost predicate RecordsComplete() {
      headerSize > 0 && forall i :: Complete(i)
    }

    ghost predicate Fits(i: nat, size: nat) {
      i < |entries| ==> entries[i].bytes <= size
    }

    /** Each record fits into the buffer. */
    ghost predicate RecordsFit() {
      RecordSize(nameLimit) != 0 ==> forall i :: Fits(i, BufferSize())
    }

    /** What the server promises. */
    ghost predicate Server() {
      CookiesDiffer() && RecordsComplete() && RecordsFit()
    }

    ghost predicate Valid()
      reads this
    {
      && Server()
      && position <= |entries| && Cookie(position) == filePosition
      && nextFileInfo <= |cache| <= MAX_FILE_INFO
      && (forall k :: 0 <= k < |cache| ==> Recorded(cache[k]))
      && |receivedAt| == |received|
      && Leaves(recordSizes, nameLimit, received, owed)
    }

    /** What PopulateFileInfo() makes of a record: None if UEFI cannot express it. */
    ghost function Convert(d: Dirent): Option<Entry> {
      var info := AttrToFileInfo(lib, d.attr);
      if RecordSize(|d.name|) == 0 || EntrySize(|d.name|) > EntrySize(nameLimit) || !NameSupported(d.name) || info == None then None
      else Some(Entry(EntrySize(|d.name|), d.name, info.value))
    }

    /** PopulateFileInfo(), with the loop over the name's bytes. */
    method Populate(dirent: Dirent) returns (entry: Option<Entry>)
      ensures entry == Convert(dirent)
    {
      var direntSize := RecordSize(|dirent.name|);
      if direntSize == 0 {
        return None;
      }
      var fileInfoSize := NAME_OFFSET + (|dirent.name| + 1) * 2;
      if fileInfoSize > NAME_OFFSET + (nameLimit + 1) * 2 {
        return None;
      }
      var fileName: seq<Byte> := [];
      var idx := 0;
      while idx < |dirent.name|
        invariant 0 <= idx <= |dirent.name|
        invariant NameSupported(dirent.name[..idx]) && fileName == dirent.name[..idx]
      {
        var nameByte := dirent.name[idx];
        assert dirent.name[..idx + 1] == dirent.name[..idx] + [nameByte];
        if nameByte < 0x20 || nameByte > 0x7E || nameByte == SLASH || nameByte == BACKSLASH {
          return None;
        }
        fileName := fileName + [nameByte];
        idx := idx + 1;
      }
      assert dirent.name[..idx] == dirent.name;
      var info := ReadAttributes(lib, dirent.attr);
      if info == None {
        return None;
      }
      return Some(Entry(fileInfoSize, fileName, info.value));
    }

    // ----- what is listed, record by record -----

    /** A record that UEFI can express: printable ASCII without slashes, within the limit, attributes of a file or directory. */
    ghost predicate Listable(d: Dirent) {
      && SizeFor(recordSizes, |d.name|) != 0 && |d.name| <= nameLimit
      && (forall i :: 0 <= i < |d.name| ==> 0x20 <= d.name[i] < 0x7F && d.name[i] != 0x2F && d.name[i] != 0x5C)
      && AttrToFileInfo(lib, d.attr).Some?
    }

    /** The entry is that record's: its name, its attributes, and the size of both with a terminator. */
    ghost predicate FromRecord(e: Entry, d: Dirent) {
      && Listable(d)
      && e.name == d.name && AttrToFileInfo(lib, d.attr) == Some(e.info)
      && e.size == 80 + 2 * |e.name| + 2
    }

    ghost predicate Recorded(e: Entry) {
      exists i :: 0 <= i < |entries| && FromRecord(e, entries[i])
    }

    /** The entries are those of all the listable records before `upTo`, in stream order, and of no others. */
    ghost predicate Lists(out: seq<Entry>, picks: seq<nat>, upTo: nat)
      requires upTo <= |entries|
    {
      && |picks| == |out|
      && (forall k :: 0 <= k < |picks| ==> picks[k] < upTo && FromRecord(out[k], entries[picks[k]]))
      && (forall j, k :: 0 <= j < k < |picks| ==> picks[j] < picks[k])
      && (forall i :: 0 <= i < upTo && Listable(entries[i]) ==> i in picks)
    }

    lemma ConvertExactly(d: Dirent)
      ensures Convert(d).Some? <==> Listable(d)
      ensures Convert(d).Some? ==> FromRecord(Convert(d).value, d)
    {
    }

    lemma ListsOneMore(out: seq<Entry>, picks: seq<nat>, upTo: nat, e: Entry)
      requires upTo < |entries| && Lists(out, picks, upTo) && FromRecord(e, entries[upTo])
      ensures Lists(out + [e], picks + [upTo], upTo + 1)
    {
      forall i | 0 <= i < upTo + 1 && Listable(entries[i]) ensures i in picks + [upTo] {
        assert i < upTo ==> i in picks;
      }
    }

    lemma ListsNoMore(out: seq<Entry>, picks: seq<nat>, upTo: nat)
      requires upTo < |entries| && Lists(out, picks, upTo) && !Listable(entries[upTo])
      ensures Lists(out, picks, upTo + 1)
    {
    }

    /** One record further, there is one more convertible entry, or none. */
    lemma ConvertibleStep(i: nat)
      requires i < |entries|
      ensures Rank(i) <= Rank(i + 1) <= |Convertible(entries)|
      ensures Convertible(entries)[..Rank(i + 1)] ==
              Convertible(entries)[..Rank(i)] + if Convert(entries[i]).Some? then [Convert(entries[i]).value] else []
    {
      var d, all := entries[i], Convertible(entries);
      RankIsPosition(i);
      RankIsPosition(i + 1);
      assert entries[i..][0] == d;
      if Convert(d).Some? {
        assert all[Rank(i)..][0] == Convert(d).value;
      }
    }

    /** What is convertible before `upTo` is what is listed there. */
    lemma {:induction false} ConvertibleLists(upTo: nat) returns (picks: seq<nat>)
      requires upTo <= |entries|
      ensures Rank(upTo) <= |Convertible(entries)|
      ensures Lists(Convertible(entries)[..Rank(upTo)], picks, upTo)
      decreases upTo
    {
      if upTo == 0 {
        picks := [];
      } else {
        picks := ConvertibleLists(upTo - 1);
        ConvertibleStep(upTo - 1);
        ConvertExactly(entries[upTo - 1]);
        var out := Convertible(entries)[..Rank(upTo - 1)];
        if Listable(entries[upTo - 1]) {
          ListsOneMore(out, picks, upTo - 1, Convert(entries[upTo - 1]).value);
          picks := picks + [upTo - 1];
        } else {
          ListsNoMore(out, picks, upTo - 1);
        }
      }
    }

    lemma ConvertibleIsRecorded()
      ensures forall k :: 0 <= k < |Convertible(entries)| ==> Recorded(Convertible(entries)[k])
    {
      var all := Convertible(entries);
      var picks := ConvertibleLists(|entries|);
      RankOfEnd();
      assert all[..Rank(|entries|)] == all;
      forall k | 0 <= k < |all| ensures Recorded(all[k]) {
        assert FromRecord(all[k], entries[picks[k]]);
      }
    }

    /** The plain list of convertible entries. */
    ghost function Convertible(s: seq<Dirent>): seq<Entry> {
      if s == [] then []
      else (if Convert(s[0]).Some? then [Convert(s[0]).value] else []) + Convertible(s[1..])
    }

    /** How many of the first i entries are convertible. */
    ghost function Rank(i: nat): nat
      requires i <= |entries|
    {
      if i == 0 then 0 else Rank(i - 1) + if Convert(entries[i - 1]).Some? then 1 else 0
    }

    /** The convertible entries from entry i on are a suffix of all of them. */
    lemma {:induction false} RankIsPosition(i: nat)
      requires i <= |entries|
      ensures Rank(i) <= |Convertible(entries)|
      ensures Convertible(entries[i..]) == Convertible(entries)[Rank(i)..]
      decreases i
    {
      if i == 0 {
        assert entries[0..] == entries;
      } else {
        RankIsPosition(i - 1);
        assert entries[i - 1..][0] == entries[i - 1] && entries[i - 1..][1..] == entries[i..];
        var all := Convertible(entries);
        assert Convert(entries[i - 1]).Some? ==> all[Rank(i - 1)..][1..] == all[Rank(i)..];
      }
    }

    /** What the caller has not seen yet. */
    ghost function Unread(): seq<Entry>
      requires Valid()
      reads this
    {
      cache[nextFileInfo..] + Convertible(entries[position..])
    }

    constructor (entries: seq<Dirent>, nameLimit: nat, recordSizes: seq<nat>, headerSize: nat, lib: TimeLib)
      requires headerSize > 0
      requires forall i :: 0 <= i < |entries| ==> entries[i].cookieForNextEntry != 0
      requires forall i, j :: 0 <= i < j < |entries| ==> entries[i].cookieForNextEntry != entries[j].cookieForNextEntry
      requires forall i :: 0 <= i < |entries| ==>
                 entries[i].bytes >= headerSize &&
                 (SizeFor(recordSizes, nameLimit) != 0 ==> entries[i].bytes <= MAX_FILE_INFO * SizeFor(recordSizes, nameLimit)) &&
                 (SizeFor(recordSizes, |entries[i].name|) != 0 ==> entries[i].bytes == SizeFor(recordSizes, |entries[i].name|))
      ensures Valid() && Unread() == Convertible(entries) && owed == multiset{} && received == [] && failures == 0
      ensures this.entries == entries && this.nameLimit == nameLimit
      ensures this.recordSizes == recordSizes && this.headerSize == headerSize && this.lib == lib
    {
      this.entries := entries;
      this.nameLimit := nameLimit;
      this.recordSizes := recordSizes;
      this.headerSize := headerSize;
      this.lib := lib;
      filePosition := 0;
      cache := [];
      nextFileInfo := 0;
      position := 0;
      owed := multiset{};
      received, receivedAt, failures := [], [], 0;
      new;
      LeavesExactly(recordSizes, nameLimit, received, owed);
      assert entries[0..] == entries;
      assert forall i, j {:trigger Distinct(i, j)} :: Distinct(i, j);
    }

    /** VirtioFsSimpleFileSetPosition() on a directory. */
    method Rewind(p: nat) returns (status: Status)
      requires Valid()
      modifies this`filePosition, this`cache, this`nextFileInfo, this`position
      ensures Valid()
      ensures status == if p == 0 then Success else Unsupported
      ensures Unread() == if p == 0 then Convertible(entries) else old(Unread())
    {
      if p != 0 {
        return Unsupported;
      }
      filePosition := 0;
      cache := [];
      nextFileInfo := 0;
      position := 0;
      NothingCached();
      return Success;
    }

    lemma NothingCached()
      requires Server() && position == 0 && nextFileInfo == 0 && cache == []
      ensures cache[nextFileInfo..] + Convertible(entries[position..]) == Convertible(entries)
    {
      assert entries[0..] == entries;
    }

    /** FUSE_READDIRPLUS: whole records, then possibly a fragment too short to be a record, at most `size` bytes in all. */
    method ReadDirPlus(cookie: nat, size: nat, ghost at: nat) returns (status: Status, chunk: seq<Dirent>, bytes: nat)
      requires Server() && at <= |entries| && cookie == Cookie(at)
      requires forall i :: Fits(i, size)
      modifies this`owed, this`received, this`receivedAt, this`failures
      ensures status.IsError() ==>
                && owed == old(owed) && received == old(received) && receivedAt == old(receivedAt)
                && failures == old(failures) + 1
      ensures !status.IsError() ==>
                && RecordsAt(chunk, at)
                && Bytes(chunk) <= bytes < Bytes(chunk) + headerSize && bytes <= size
                && (bytes == 0 ==> at == |entries|)
                && owed == old(owed) + Nodes(chunk)
                && received == old(received) + [chunk] && receivedAt == old(receivedAt) + [at]
                && failures == old(failures) + if bytes == Bytes(chunk) then 0 else 1
    {
      status, chunk, bytes := *, [], 0;
      if status.IsError() {
        failures := failures + 1;
        return;
      }
      chunk := SomeRecords(cookie, size, at);
      var slack :| 0 <= slack < headerSize && Bytes(chunk) + slack <= size;
      bytes := Bytes(chunk) + slack;
      owed := owed + Nodes(chunk);
      received, receivedAt := received + [chunk], receivedAt + [at];
      failures := failures + if slack == 0 then 0 else 1;
    }

    /** As many whole records from a cookie on as the server likes: at least one, and no more than fit. */
    method SomeRecords(cookie: nat, size: nat, ghost at: nat) returns (chunk: seq<Dirent>)
      requires Server() && at <= |entries| && cookie == Cookie(at)
      requires forall k :: Fits(k, size)
      ensures RecordsAt(chunk, at) && Bytes(chunk) <= size
      ensures Bytes(chunk) == 0 ==> at == |entries|
    {
      chunk := [];
      var i :| 0 <= i <= |entries| && Cookie(i) == cookie;
      assert Distinct(i, at) && Distinct(at, i) && Complete(at) && Fits(at, size);
      if i == |entries| {
        return;
      }
      var n :| 1 <= n <= |entries| - i;
      if Bytes(entries[i..i + n]) <= size {
        return entries[i..i + n];
      }
      chunk := [entries[i]];
    }

    predicate NameOk(d: Dirent) {
      NameFits(recordSizes, nameLimit, d)
    }

    /** The records of a chunk whose nodes stay unforgotten. */
    function Unforgotten(chunk: seq<Dirent>): seq<Dirent> {
      Dropped(recordSizes, nameLimit, chunk)
    }

    /** All records from entry `from` up to entry `to` are well-formed. */
    ghost predicate NamesBetween(from: nat, to: nat) {
      to <= |entries| && forall k :: from <= k < to ==> NameOk(entries[k])
    }

    predicate NamesOk(s: seq<Dirent>) {
      forall i :: 0 <= i < |s| ==> NameOk(s[i])
    }

    /**
      Progress of a refill that began at entry `start`: the cache holds what is
      convertible up to entry `end`, and the stream has been read up to `at`.
    */
    ghost predicate Collected(infos: seq<Entry>, start: nat, end: nat, at: nat) {
      && start <= end <= at <= |entries|
      && |infos| <= MAX_FILE_INFO
      && Rank(start) <= Rank(end) <= |Convertible(entries)|
      && infos == Convertible(entries)[Rank(start)..Rank(end)]
      && (|infos| < MAX_FILE_INFO ==> Rank(end) == Rank(at))
    }

    lemma CollectOne(infos: seq<Entry>, start: nat, end: nat, at: nat)
      requires Collected(infos, start, end, at) && at < |entries|
      ensures var c := Convert(entries[at]);
              if |infos| < MAX_FILE_INFO && c.Some? then Collected(infos + [c.value], start, at + 1, at + 1)
              else Collected(infos, start, end, at + 1)
    {
      var c, all := Convert(entries[at]), Convertible(entries);
      RankIsPosition(at);
      RankIsPosition(at + 1);
      assert entries[at..][0] == entries[at];
      if |infos| < MAX_FILE_INFO && c.Some? {
        assert all[Rank(at)..][0] == c.value;
        assert all[Rank(start)..Rank(at) + 1] == all[Rank(start)..Rank(at)] + [all[Rank(at)]];
      }
    }

    /** FUSE_FORGET, sent as best effort. */
    method Forget(nodeId: nat)
      requires nodeId in owed
      modifies this`owed
      ensures owed == old(owed) - multiset{nodeId}
    {
      owed := owed - multiset{nodeId};
    }

    /** These are the records of the stream from entry `at` on. */
    ghost predicate RecordsAt(chunk: seq<Dirent>, at: nat) {
      at + |chunk| <= |entries| && forall k :: 0 <= k < |chunk| ==> chunk[k] == entries[at + k]
    }

    /** The state of a refill, in the middle of a chunk with `slack` bytes behind the last record. */
    ghost predicate InChunk(r: Refill, start: nat, end: nat, at: nat, slack: nat, others: multiset<nat>)
      reads this`owed
    {
      && RecordsAt(r.rest, at)
      && slack < headerSize
      && r.remaining == Bytes(r.rest) + slack
      && Collected(r.infos, start, end, at)
      && r.endCookie == Cookie(end) && r.streamCookie == Cookie(at)
      && owed == others + Nodes(r.rest)
    }

    lemma ForgetOne(others: multiset<nat>, rest: seq<Dirent>)
      requires rest != []
      ensures others + Nodes(rest) - Node(rest[0]) == others + Nodes(rest[1..])
      ensures Node(rest[0]) <= others + Nodes(rest)
    {
    }

    /** The node of a record is looked up no more, unless it is that of "." or "..". */
    method ForgetRecord(dirent: Dirent, ghost rest: seq<Dirent>, ghost others: multiset<nat>)
      requires rest != [] && rest[0] == dirent && owed == others + Nodes(rest)
      modifies this`owed
      ensures owed == others + Nodes(rest[1..])
    {
      ForgetOne(others, rest);
      if dirent.nodeId != 0 {
        Forget(dirent.nodeId);
      }
    }

    /** One record: cache it if it can be expressed and there is room, and forget it. */
    method ConsumeRecord(r: Refill, ghost start: nat, ghost end: nat, ghost at: nat, ghost slack: nat, ghost others: multiset<nat>)
      returns (ok: bool, r': Refill, ghost end': nat)
      requires RecordsComplete() && InChunk(r, start, end, at, slack, others)
      requires r.remaining >= headerSize
      modifies this`owed
      ensures at < |entries| && (ok <==> NameOk(entries[at]))
      ensures ok ==> InChunk(r', start, end', at + 1, slack, others) && r'.rest == r.rest[1..]
      ensures !ok ==> r' == r && end' == end && owed == old(owed)
    {
      r', end' := r, end;
      var dirent := r.rest[0];
      assert dirent == entries[at] && Complete(at);
      var direntSize := RecordSize(|dirent.name|);
      if direntSize == 0 || direntSize > r.remaining || |dirent.name| > nameLimit {
        ok := false;
        return;
      }
      var infos, endCookie;
      infos, endCookie, end' := CacheRecord(dirent, r.infos, r.endCookie, start, end, at);
      ForgetRecord(dirent, r.rest, others);
      r' := Refill(r.rest[1..], r.remaining - direntSize, infos, endCookie, dirent.cookieForNextEntry);
      ok := true;
    }

    /** Add a record to the cache, if it can be expressed and there is room. */
    method CacheRecord(dirent: Dirent, infos: seq<Entry>, endCookie: nat, ghost start: nat, ghost end: nat, ghost at: nat)
      returns (infos': seq<Entry>, endCookie': nat, ghost end': nat)
      requires Collected(infos, start, end, at) && at < |entries| && dirent == entries[at] && endCookie == Cookie(end)
      ensures Collected(infos', start, end', at + 1) && endCookie' == Cookie(end')
    {
      infos', endCookie', end' := infos, endCookie, end;
      CollectOne(infos, start, end, at);
      if |infos| < MAX_FILE_INFO {
        var entry := Populate(dirent);
        if entry.Some? {
          infos', endCookie', end' := infos + [entry.value], dirent.cookieForNextEntry, at + 1;
        }
      }
    }

    /** The loop over a chunk has come from `r` at entry `at` to `r'` at entry `at'`, past well-formed records only. */
    ghost predicate Progress(r: Refill, at: nat, r': Refill, at': nat) {
      && Unforgotten(r'.rest) == Unforgotten(r.rest)
      && at <= at' && at' + |r'.rest| == at + |r.rest|
      && NamesBetween(at, at')
    }

    lemma OneRecordOn(r: Refill, at: nat, mid: Refill, at': nat, r': Refill)
      requires Progress(r, at, mid, at') && RecordsAt(mid.rest, at')
      requires mid.rest != [] && NameOk(mid.rest[0]) && r'.rest == mid.rest[1..]
      ensures Progress(r, at, r', at' + 1)
    {
      assert mid.rest[0] == entries[at'];
    }

    /** One turn of the loop over chunk `r0`, which began at entry `at0`. */
    method ConsumeNext(ghost r0: Refill, ghost at0: nat, r: Refill,
                       ghost start: nat, ghost end: nat, ghost at: nat, ghost slack: nat, ghost others: multiset<nat>)
      returns (ok: bool, r': Refill, ghost end': nat)
      requires RecordsComplete() && InChunk(r, start, end, at, slack, others) && Progress(r0, at0, r, at)
      requires r.remaining >= headerSize
      modifies this`owed
      ensures ok ==> InChunk(r', start, end', at + 1, slack, others) && Progress(r0, at0, r', at + 1)
      ensures !ok ==> r' == r && end' == end && owed == old(owed) && r.rest != [] && r.rest == Unforgotten(r0.rest)
    {
      NoRecordLeft(r.rest, at);
      ok, r', end' := ConsumeRecord(r, start, end, at, slack, others);
      assert r.rest[0] == entries[at];
      if ok {
        OneRecordOn(r0, at0, r, at, r');
      }
    }

    /** The loop over a chunk, up to the first malformed record or the end. */
    method ConsumeRecords(r: Refill, ghost start: nat, ghost end: nat, ghost at: nat, ghost slack: nat, ghost others: multiset<nat>)
      returns (ok: bool, r': Refill, ghost end': nat, ghost at': nat)
      requires RecordsComplete() && InChunk(r, start, end, at, slack, others)
      modifies this`owed
      ensures InChunk(r', start, end', at', slack, others) && Progress(r, at, r', at')
      ensures r'.rest == Unforgotten(r.rest) && (ok <==> r'.rest == [])
    {
      r', end', at' := r, end, at;
      while r'.remaining >= headerSize
        invariant InChunk(r', start, end', at', slack, others)
        invariant Progress(r, at, r', at')
        decreases |entries| - at'
      {
        ok, r', end' := ConsumeNext(r, at, r', start, end', at', slack, others);
        if !ok {
          return;
        }
        at' := at' + 1;
      }
      NoRecordLeft(r'.rest, at');
      ok := true;
    }

    /**
      The records of one chunk. The loop stops at the first malformed record; what it has
      not come to is not forgotten.
    */
    method ConsumeChunk(r: Refill, ghost start: nat, ghost end: nat, ghost at: nat, ghost slack: nat, ghost others: multiset<nat>)
      returns (status: Status, r': Refill, ghost end': nat, ghost at': nat)
      requires RecordsComplete() && InChunk(r, start, end, at, slack, others)
      modifies this`owed
      ensures status == if NamesOk(r.rest) && slack == 0 then Success else ProtocolError
      ensures InChunk(r', start, end', at', slack, others) && Progress(r, at, r', at')
      ensures r'.rest == Unforgotten(r.rest)
      ensures r'.rest == [] <==> NamesOk(r.rest)
    {
      DroppedNothing(recordSizes, nameLimit, r.rest);
      var ok;
      ok, r', end', at' := ConsumeRecords(r, start, end, at, slack, others);
      if !ok {
        return ProtocolError, r', end', at';
      }
      if r'.remaining > 0 {
        return ProtocolError, r', end', at';
      }
      return Success, r', end', at';
    }

    /** A chunk from its beginning, with `others` owed besides. */
    method ConsumeFetched(r: Refill, records: seq<Dirent>, bytes: nat, ghost start: nat, ghost end: nat, ghost at: nat, ghost others: multiset<nat>)
      returns (status: Status, r': Refill, ghost end': nat, ghost at': nat)
      requires RecordsComplete() && RecordsAt(records, at) && Bytes(records) <= bytes < Bytes(records) + headerSize
      requires Collected(r.infos, start, end, at) && r.endCookie == Cookie(end) && r.streamCookie == Cookie(at)
      requires owed == others + Nodes(records)
      modifies this`owed
      ensures status == if NamesOk(records) && bytes == Bytes(records) then Success else ProtocolError
      ensures owed == others + Nodes(Unforgotten(records))
      ensures status == Success ==>
                && owed == others && InChunk(r', start, end', at', 0, others) && r'.rest == []
                && at' == at + |records| && NamesBetween(at, at')
    {
      ghost var slack := bytes - Bytes(records);
      status, r', end', at' := ConsumeChunk(r.(rest := records, remaining := bytes), start, end, at, slack, others);
    }

    /** A server that sends the whole directory in one chunk. */
    method ConsumeStream() returns (status: Status)
      requires Server() && Leaves(recordSizes, nameLimit, received, owed) && RecordSize(nameLimit) != 0 && Bytes(entries) <= BufferSize()
      modifies this`owed, this`received, this`receivedAt
      ensures Leaves(recordSizes, nameLimit, received, owed)
      ensures status == if NamesOk(entries) then Success else ProtocolError
      ensures owed == old(owed) + Nodes(Unforgotten(entries))
    {
      ghost var others := owed;
      LeavesOneMore(recordSizes, nameLimit, received, owed, entries);
      owed := owed + Nodes(entries);
      received, receivedAt := received + [entries], receivedAt + [0];
      RankIsPosition(0);
      var r := Refill([], 0, [], 0, 0);
      ghost var end, at;
      status, r, end, at := ConsumeFetched(r, entries, Bytes(entries), 0, 0, 0, others);
    }

    /** Less than a header left means that no record is left. */
    lemma NoRecordLeft(rest: seq<Dirent>, at: nat)
      requires RecordsComplete() && RecordsAt(rest, at)
      ensures Bytes(rest) < headerSize ==> rest == []
    {
      assert Complete(at);
    }

    /** The end of the stream has the highest rank. */
    lemma RankOfEnd()
      ensures Rank(|entries|) == |Convertible(entries)|
    {
      RankIsPosition(|entries|);
      assert entries[|entries|..] == [];
    }

    /**
      A refill that began at entry `start` may get to see this chunk, at entry `a`, as
      its last one: it fits into the buffer, everything before it was well-formed, and
      the new cache was not full yet.
    */
    ghost predicate Reachable(start: nat, a: nat, chunk: seq<Dirent>) {
      && start <= a && RecordsAt(chunk, a) && NamesBetween(start, a)
      && Bytes(chunk) <= BufferSize() && Rank(a) < Rank(start) + MAX_FILE_INFO
    }

    /** All chunks of the log from number `from` on. */
    ghost predicate AllReachable(start: nat, chunks: seq<seq<Dirent>>, at: seq<nat>, from: nat) {
      |at| == |chunks| && forall k :: from <= k < |chunks| ==> Reachable(start, at[k], chunks[k])
    }

    /** The last chunk decides: unless a request failed, the refill fails exactly if that chunk is malformed. */
    ghost predicate LastDecides(status: Status, chunks: seq<seq<Dirent>>, from: nat) {
      |chunks| > from && (status.IsError() <==> !NamesOk(chunks[|chunks| - 1]))
    }

    lemma LastIs(status: Status, chunks: seq<seq<Dirent>>, from: nat, chunk: seq<Dirent>)
      requires |chunks| == from + 1 && chunks[from] == chunk && (status.IsError() <==> !NamesOk(chunk))
      ensures LastDecides(status, chunks, from)
    {
    }

    lemma GoodNamesGoWell(status: Status, start: nat, chunks: seq<seq<Dirent>>, at: seq<nat>, from: nat)
      requires AllReachable(start, chunks, at, from) && LastDecides(status, chunks, from)
      ensures NamesOk(entries) ==> !status.IsError()
    {
      var last := |chunks| - 1;
      assert Reachable(start, at[last], chunks[last]);
    }

    lemma ReachableOneMore(start: nat, chunks: seq<seq<Dirent>>, at: seq<nat>, from: nat, chunk: seq<Dirent>, a: nat)
      requires AllReachable(start, chunks, at, from) && Reachable(start, a, chunk)
      ensures AllReachable(start, chunks + [chunk], at + [a], from)
    {
    }

    /** A chunk that a refill has room for can be read where the refill stands. */
    lemma ReachableNext(r: Refill, start: nat, end: nat, at: nat, chunk: seq<Dirent>)
      requires Collected(r.infos, start, end, at) && |r.infos| < MAX_FILE_INFO && NamesBetween(start, at)
      requires RecordsAt(chunk, at) && Bytes(chunk) <= BufferSize()
      ensures Reachable(start, at, chunk)
    {
    }

    /** Fetch the next chunk. */
    method Fetch(r: Refill, direntBufSize: nat, ghost start: nat, ghost end: nat, ghost at: nat, ghost from: nat)
      returns (status: Status, records: seq<Dirent>, bytes: nat)
      requires Server() && Collected(r.infos, start, end, at) && r.streamCookie == Cookie(at)
      requires Leaves(recordSizes, nameLimit, received, owed)
      requires RecordSize(nameLimit) != 0 && direntBufSize == BufferSize() && from <= |received|
      requires |r.infos| < MAX_FILE_INFO && NamesBetween(start, at) && AllReachable(start, received, receivedAt, from)
      modifies this`owed, this`received, this`receivedAt, this`failures
      ensures old(received) <= received && AllReachable(start, received, receivedAt, from)
      ensures status.IsError() ==> owed == old(owed) && Leaves(recordSizes, nameLimit, received, owed) && failures > old(failures)
      ensures !status.IsError() ==>
                && RecordsAt(records, at) && Bytes(records) <= bytes < Bytes(records) + headerSize
                && (bytes == 0 ==> at == |entries|)
                && owed == old(owed) + Nodes(records) && Leaves(recordSizes, nameLimit, received, old(owed) + Nodes(Unforgotten(records)))
                && |received| == |old(received)| + 1 && received[|old(received)|] == records
                && failures == old(failures) + (if bytes == Bytes(records) then 0 else 1)
    {
      status, records, bytes := ReadDirPlus(r.streamCookie, direntBufSize, at);
      if status.IsError() {
        return;
      }
      LeavesOneMore(recordSizes, nameLimit, old(received), old(owed), records);
      ReachableNext(r, start, end, at, records);
      ReachableOneMore(start, old(received), old(receivedAt), from, records, at);
    }

    /** A read that returns nothing is the end of the stream. */
    method ConsumeOrEnd(r: Refill, records: seq<Dirent>, bytes: nat, ghost start: nat, ghost end: nat, ghost at: nat, ghost others: multiset<nat>)
      returns (status: Status, r': Refill, endOfStream: bool, ghost end': nat, ghost at': nat)
      requires RecordsComplete() && RecordsAt(records, at) && Bytes(records) <= bytes < Bytes(records) + headerSize
      requires r.rest == [] && r.remaining == 0 && Collected(r.infos, start, end, at)
      requires r.endCookie == Cookie(end) && r.streamCookie == Cookie(at)
      requires owed == others + Nodes(records) && (bytes == 0 ==> at == |entries|)
      modifies this`owed
      ensures status == if NamesOk(records) && bytes == Bytes(records) then Success else ProtocolError
      ensures owed == others + Nodes(Unforgotten(records))
      ensures status == Success ==>
                && owed == others && InChunk(r', start, end', at', 0, others) && r'.rest == [] && NamesBetween(at, at')
                && if endOfStream then at' == at == |entries| else at < at'
    {
      NoRecordLeft(records, at);
      if bytes == 0 {
        return Success, r, true, end, at;
      }
      status, r', end', at' := ConsumeFetched(r, records, bytes, start, end, at, others);
      endOfStream := false;
    }

    /** One chunk of the stream, or its end. */
    method RefillStep(r: Refill, direntBufSize: nat, ghost start: nat, ghost end: nat, ghost at: nat, ghost from: nat,
                      ghost others: multiset<nat>)
      returns (status: Status, r': Refill, endOfStream: bool, ghost end': nat, ghost at': nat)
      requires Server() && InChunk(r, start, end, at, 0, others) && r.rest == [] && Leaves(recordSizes, nameLimit, received, others)
      requires RecordSize(nameLimit) != 0 && direntBufSize == BufferSize() && from <= |received|
      requires |r.infos| < MAX_FILE_INFO && NamesBetween(start, at) && AllReachable(start, received, receivedAt, from)
      modifies this`owed, this`received, this`receivedAt, this`failures
      ensures failures >= old(failures) && Leaves(recordSizes, nameLimit, received, owed)
      ensures old(received) <= received && AllReachable(start, received, receivedAt, from)
      ensures failures == old(failures) ==> LastDecides(status, received, |old(received)|)
      ensures !status.IsError() ==>
                && InChunk(r', start, end', at', 0, others) && r'.rest == [] && Leaves(recordSizes, nameLimit, received, others)
                && failures == old(failures) && NamesBetween(start, at')
                && if endOfStream then at' == at == |entries| else at < at'
    {
      r', end', at', endOfStream := r, end, at, false;
      assert owed == others;
      var records, bytes;
      status, records, bytes := Fetch(r, direntBufSize, start, end, at, from);
      if status.IsError() {
        return;
      }
      status, r', endOfStream, end', at' := ConsumeOrEnd(r, records, bytes, start, end, at, others);
      if bytes == Bytes(records) {
        LastIs(status, received, |old(received)|, records);
      }
    }

    /** FUSE_STATFS */
    method StatFs() returns (status: Status)
      modifies this`failures
      ensures failures == old(failures) + if status.IsError() then 1 else 0
    {
      status := *;
      failures := failures + if status.IsError() then 1 else 0;
    }

    /** AllocatePool() */
    method Allocate() returns (ok: bool)
      modifies this`failures
      ensures failures == old(failures) + if ok then 0 else 1
    {
      ok := *;
      failures := failures + if ok then 0 else 1;
    }

    /** Chunk after chunk from a cookie on, until the new cache is full or the stream ends. */
    method Collect(cookie: nat, direntBufSize: nat, ghost start: nat)
      returns (status: Status, r: Refill, ghost end: nat, ghost at: nat)
      requires Server() && start <= |entries| && cookie == Cookie(start) && |receivedAt| == |received|
      requires Leaves(recordSizes, nameLimit, received, owed)
      requires RecordSize(nameLimit) != 0 && direntBufSize == BufferSize()
      modifies this`owed, this`received, this`receivedAt, this`failures
      ensures failures >= old(failures) && Leaves(recordSizes, nameLimit, received, owed) && old(received) <= received
      ensures AllReachable(start, received, receivedAt, |old(received)|)
      ensures failures == old(failures) ==> LastDecides(status, received, |old(received)|)
      ensures failures == old(failures) && NamesOk(entries) ==> !status.IsError()
      ensures !status.IsError() ==>
                && status == Success
                && Collected(r.infos, start, end, at) && r.endCookie == Cookie(end)
                && (|r.infos| == MAX_FILE_INFO || at == |entries|)
                && owed == old(owed)
    {
      r := Refill([], 0, [], cookie, cookie);
      end, at := start, start;
      ghost var others := owed;
      RankIsPosition(start);
      var endOfStream := false;
      while !endOfStream && |r.infos| < MAX_FILE_INFO
        invariant InChunk(r, start, end, at, 0, others) && r.rest == [] && Leaves(recordSizes, nameLimit, received, others)
        invariant endOfStream ==> at == |entries|
        invariant start <= at && NamesBetween(start, at)
        invariant failures == old(failures) && old(received) <= received
        invariant AllReachable(start, received, receivedAt, |old(received)|)
        invariant r.infos != [] || at > start || endOfStream ==> LastDecides(Success, received, |old(received)|)
        decreases |entries| - at, !endOfStream
      {
        status, r, endOfStream, end, at := RefillStep(r, direntBufSize, start, end, at, |old(received)|, others);
        if status.IsError() {
          if failures == old(failures) {
            GoodNamesGoWell(status, start, received, receivedAt, |old(received)|);
          }
          return;
        }
      }
      status := Success;
    }

    /** The beginning of a refill: the name limit, the buffer for the stream and the new cache. */
    method Prepare() returns (status: Status, direntBufSize: nat)
      modifies this`failures
      ensures failures >= old(failures)
      ensures status.IsError() <==> failures > old(failures) || RecordSize(nameLimit) == 0
      ensures !status.IsError() ==> direntBufSize == BufferSize()
    {
      direntBufSize := 0;
      status := StatFs();
      if status.IsError() {
        return;
      }
      direntBufSize := RecordSize(nameLimit);
      if direntBufSize == 0 {
        status := Unsupported;
        return;
      }
      direntBufSize := direntBufSize * MAX_FILE_INFO;
      var ok := Allocate();
      if !ok {
        return OutOfResources, direntBufSize;
      }
      ok := Allocate();
      if !ok {
        return OutOfResources, direntBufSize;
      }
    }

    /** RefillFileInfoCache(): replaces the cache by the next convertible entries. */
    method RefillFileInfoCache() returns (status: Status)
      requires Valid()
      modifies this
      // Valid() says that what stays behind are the nodes of each chunk from its first malformed record on.
      ensures Valid() && failures >= old(failures) && old(received) <= received
      ensures AllReachable(old(position), received, receivedAt, |old(received)|)
      ensures NamesOk(entries) || Nodes(Unforgotten(Window(old(position)))) == multiset{} ==> owed == old(owed)
      ensures status.IsError() ==>
                cache == old(cache) && nextFileInfo == old(nextFileInfo) && position == old(position)
      ensures !status.IsError() ==>
                && nextFileInfo == 0 && owed == old(owed)
                && cache + Convertible(entries[position..]) == Convertible(entries[old(position)..])
                && (cache == [] ==> Convertible(entries[old(position)..]) == [])
      ensures failures == old(failures) && RecordSize(nameLimit) != 0 ==> LastDecides(status, received, |old(received)|)
      ensures failures == old(failures) && RecordSize(nameLimit) != 0 && NamesOk(entries) ==> status == Success
    {
      var direntBufSize;
      status, direntBufSize := Prepare();
      if status.IsError() {
        return;
      }
      var r;
      ghost var end, at;
      status, r, end, at := Collect(filePosition, direntBufSize, position);
      Balanced(position, old(received), old(owed), received, owed, receivedAt);
      if status.IsError() {
        return;
      }
      Commit(r, end, at);
    }

    lemma {:induction false} RankMonotone(i: nat, j: nat)
      requires i <= j <= |entries|
      ensures Rank(i) <= Rank(j)
      decreases j
    {
      if i < j {
        RankMonotone(i, j - 1);
      }
    }

    /** The last entry, from `a` on, where a chunk of a refill from `start` may begin. */
    ghost function LastBegin(start: nat, a: nat): (b: nat)
      requires start <= a <= |entries|
      ensures a <= b <= |entries|
      decreases |entries| - a
    {
      if a < |entries| && NameOk(entries[a]) && Rank(a + 1) < Rank(start) + MAX_FILE_INFO then LastBegin(start, a + 1) else a
    }

    /** A chunk may begin there: nothing before it is malformed, and the cache is not full. */
    lemma {:induction false} LastBeginMayBegin(start: nat, a: nat)
      requires start <= a <= |entries| && Rank(a) < Rank(start) + MAX_FILE_INFO
      ensures NamesBetween(a, LastBegin(start, a)) && Rank(LastBegin(start, a)) < Rank(start) + MAX_FILE_INFO
      decreases |entries| - a
    {
      if a < |entries| && NameOk(entries[a]) && Rank(a + 1) < Rank(start) + MAX_FILE_INFO {
        LastBeginMayBegin(start, a + 1);
      }
    }

    lemma {:induction false} LastBeginIsLast(start: nat, a: nat, b: nat)
      requires start <= a <= b <= |entries| && NamesBetween(a, b)
      requires Rank(b) < Rank(start) + MAX_FILE_INFO
      ensures b <= LastBegin(start, a)
      decreases |entries| - a
    {
      if a < b {
        assert NameOk(entries[a]);
        RankMonotone(a + 1, b);
        LastBeginIsLast(start, a + 1, b);
      }
    }

    /** The chunk that loses most: as late as a chunk can begin, and as long as the buffer allows. */
    ghost function Window(start: nat): seq<Dirent>
      requires start <= |entries|
    {
      Fitting(entries[LastBegin(start, start)..], BufferSize())
    }

    lemma WindowIsReachable(start: nat)
      requires start <= |entries|
      ensures Reachable(start, LastBegin(start, start), Window(start))
    {
      LastBeginMayBegin(start, start);
      var rest := entries[LastBegin(start, start)..];
      FittingIsPrefix(rest, BufferSize());
    }

    /** What a chunk holds before entry `last` is well-formed, and what it holds from there on continues the stream. */
    lemma SplitAt(start: nat, a: nat, chunk: seq<Dirent>, last: nat)
      requires start <= a <= last <= a + |chunk| && RecordsAt(chunk, a) && NamesBetween(start, last)
      ensures forall i :: 0 <= i < last - a ==> NameOk(chunk[i])
      ensures chunk[last - a..] <= entries[last..]
    {
      forall i | 0 <= i < last - a ensures NameOk(chunk[i]) {
        assert chunk[i] == entries[a + i];
      }
    }

    /** A chunk loses nothing, or what it loses is a prefix of what the window loses. */
    lemma LosesAtMost(start: nat, a: nat, chunk: seq<Dirent>)
      requires start <= |entries| && Reachable(start, a, chunk)
      ensures Nodes(Unforgotten(chunk)) <= Nodes(Unforgotten(Window(start)))
    {
      var last := LastBegin(start, start);
      LastBeginIsLast(start, start, a);
      LastBeginMayBegin(start, start);
      if a + |chunk| <= last {
        AllWellFormed(start, a, chunk, last);
      } else {
        SplitAt(start, a, chunk, last);
        LosesAsPrefix(recordSizes, nameLimit, chunk, last - a, entries[last..], BufferSize());
      }
    }

    lemma AllWellFormed(start: nat, a: nat, chunk: seq<Dirent>, last: nat)
      requires start <= a && a + |chunk| <= last && RecordsAt(chunk, a) && NamesBetween(start, last)
      ensures Unforgotten(chunk) == []
    {
      forall i | 0 <= i < |chunk| ensures NameOk(chunk[i]) {
        assert chunk[i] == entries[a + i];
      }
      DroppedNothing(recordSizes, nameLimit, chunk);
    }

    /**
      Refills from entry `start` on are balanced for every chunking by the server, if and only
      if, in the window, no record from the first malformed one on carries a node.
    */
    lemma BalancedExactly(start: nat)
      requires start <= |entries|
      ensures (forall a, chunk :: Reachable(start, a, chunk) ==> Nodes(Unforgotten(chunk)) == multiset{}) <==>
              forall i :: 0 <= i < |Unforgotten(Window(start))| ==> Unforgotten(Window(start))[i].nodeId == 0
    {
      NodesEmpty(Unforgotten(Window(start)));
      WindowIsReachable(start);
      forall a, chunk | Reachable(start, a, chunk) && Nodes(Unforgotten(Window(start))) == multiset{}
        ensures Nodes(Unforgotten(chunk)) == multiset{}
      {
        LosesAtMost(start, a, chunk);
      }
    }

    /** If the window loses nothing, no chunk of a refill does. */
    lemma {:induction false} NothingBehind(start: nat, chunks: seq<seq<Dirent>>, at: seq<nat>, from: nat)
      requires start <= |entries| && from <= |chunks| && AllReachable(start, chunks, at, from)
      ensures Nodes(Unforgotten(Window(start))) == multiset{} ==>
                LostIn(recordSizes, nameLimit, chunks) == LostIn(recordSizes, nameLimit, chunks[..from])
      decreases |chunks|
    {
      if from == |chunks| {
        assert chunks[..from] == chunks;
      } else {
        var last := |chunks| - 1;
        LosesAtMost(start, at[last], chunks[last]);
        NothingBehind(start, chunks[..last], at[..last], from);
        assert chunks[..last][..from] == chunks[..from];
      }
    }

    /** With well-formed names the window loses nothing. */
    lemma NothingToLose(start: nat)
      requires start <= |entries|
      ensures NamesOk(entries) ==> Nodes(Unforgotten(Window(start))) == multiset{}
    {
      FittingIsPrefix(entries[LastBegin(start, start)..], BufferSize());
      DroppedNothing(recordSizes, nameLimit, Window(start));
    }

    /** A refill that has added chunks to the log has added no loss. */
    lemma Balanced(start: nat, was: seq<seq<Dirent>>, owed: multiset<nat>, chunks: seq<seq<Dirent>>, owed': multiset<nat>, at: seq<nat>)
      requires start <= |entries| && was <= chunks && AllReachable(start, chunks, at, |was|)
      requires Leaves(recordSizes, nameLimit, was, owed) && Leaves(recordSizes, nameLimit, chunks, owed')
      ensures NamesOk(entries) || Nodes(Unforgotten(Window(start))) == multiset{} ==> owed' == owed
    {
      LeavesExactly(recordSizes, nameLimit, was, owed);
      LeavesExactly(recordSizes, nameLimit, chunks, owed');
      assert chunks[..|was|] == was;
      NothingBehind(start, chunks, at, |was|);
      NothingToLose(start);
    }

    /** What was collected and what lies behind it are the unread entries of before. */
    lemma CollectedThenRest(infos: seq<Entry>, start: nat, end: nat, at: nat)
      requires Collected(infos, start, end, at)
      ensures infos + Convertible(entries[end..]) == Convertible(entries[start..])
    {
      RankIsPosition(start);
      RankIsPosition(end);
      SliceJoin(Convertible(entries), Rank(start), Rank(end));
    }

    lemma CollectedIsRecorded(infos: seq<Entry>, start: nat, end: nat, at: nat)
      requires Collected(infos, start, end, at)
      ensures forall k :: 0 <= k < |infos| ==> Recorded(infos[k])
    {
      ConvertibleIsRecorded();
      var all := Convertible(entries);
      forall k | 0 <= k < |infos| ensures Recorded(infos[k]) {
        assert infos[k] == all[Rank(start) + k];
      }
    }

    /** A new cache is empty only if the stream has nothing left to offer. */
    lemma CollectedNothing(infos: seq<Entry>, start: nat, end: nat, at: nat)
      requires Collected(infos, start, end, at)
      requires infos == [] && at == |entries|
      ensures Convertible(entries[start..]) == []
    {
      RankIsPosition(start);
      RankOfEnd();
    }

    /** Put a new cache in place. */
    method Commit(r: Refill, ghost end: nat, ghost at: nat)
      requires Server() && position <= |entries| && |receivedAt| == |received|
      requires Leaves(recordSizes, nameLimit, received, owed)
      requires Collected(r.infos, position, end, at) && r.endCookie == Cookie(end)
      requires |r.infos| == MAX_FILE_INFO || at == |entries|
      modifies this`cache, this`nextFileInfo, this`filePosition, this`position
      ensures Valid() && nextFileInfo == 0
      ensures cache + Convertible(entries[position..]) == Convertible(entries[old(position)..])
      ensures cache == [] ==> Convertible(entries[old(position)..]) == []
    {
      CollectedThenRest(r.infos, position, end, at);
      CollectedIsRecorded(r.infos, position, end, at);
      if r.infos == [] {
        CollectedNothing(r.infos, position, end, at);
      }
      cache := r.infos;
      nextFileInfo := 0;
      filePosition := r.endCookie;
      position := end;
    }

    /** The next entry of the cache, if the caller's buffer can take it. */
    method Deliver(bufferSize: nat) returns (status: Status, size: nat, entry: Option<Entry>)
      requires Valid() && nextFileInfo < |cache|
      modifies this`nextFileInfo
      ensures Valid()
      ensures size == old(Unread())[0].size > 0
      ensures if bufferSize < size then status == BufferTooSmall && entry == None && Unread() == old(Unread())
              else status == Success && entry == Some(old(Unread())[0]) && Recorded(entry.value) && Unread() == old(Unread())[1..]
    {
      var fileInfo := cache[nextFileInfo];
      size := fileInfo.size;
      if bufferSize < size {
        return BufferTooSmall, size, None;
      }
      nextFileInfo := nextFileInfo + 1;
      return Success, size, Some(fileInfo);
    }

    /** Refill the cache if it is used up; then it is empty only at the end of the directory. */
    method FillCache() returns (status: Status)
      requires Valid()
      modifies this
      ensures Valid() && failures >= old(failures) && old(received) <= received
      ensures AllReachable(old(position), received, receivedAt, |old(received)|)
      ensures NamesOk(entries) || Nodes(Unforgotten(Window(old(position)))) == multiset{} ==> owed == old(owed)
      ensures Unread() == old(Unread())
      ensures !status.IsError() ==> owed == old(owed) && (nextFileInfo == |cache| ==> Unread() == [])
      ensures failures == old(failures) && RecordSize(nameLimit) != 0 && NamesOk(entries) ==> !status.IsError()
    {
      status := Success;
      if nextFileInfo == |cache| {
        status := RefillFileInfoCache();
      }
    }

    /** ReadFileInfoCache(): one entry, or the end of the directory, or an error that changes nothing. */
    method Read(bufferSize: nat) returns (status: Status, size: nat, entry: Option<Entry>)
      requires Valid()
      modifies this
      ensures Valid() && failures >= old(failures) && old(received) <= received
      ensures AllReachable(old(position), received, receivedAt, |old(received)|)
      ensures NamesOk(entries) || Nodes(Unforgotten(Window(old(position)))) == multiset{} ==> owed == old(owed)
      ensures status == Success || status == BufferTooSmall ==> owed == old(owed)
      ensures status == Success && entry == None ==> size == 0 && old(Unread()) == [] && Unread() == []
      ensures status == Success && entry.Some? ==>
                && Recorded(entry.value)
                && old(Unread()) != [] && entry.value == old(Unread())[0]
                && 0 < size == entry.value.size <= bufferSize
                && Unread() == old(Unread())[1..]
      ensures status == BufferTooSmall ==> old(Unread()) != [] && size == old(Unread())[0].size > bufferSize
      ensures status != Success ==> entry == None && Unread() == old(Unread())
      ensures failures == old(failures) && RecordSize(nameLimit) != 0 && NamesOk(entries) ==>
                status == Success || status == BufferTooSmall
    {
      size, entry := bufferSize, None;
      status := FillCache();
      if status.IsError() {
        status := if status == BufferTooSmall then DeviceError else status;
        return;
      }
      if nextFileInfo == |cache| {
        return Success, 0, None;
      }
      status, size, entry := Deliver(bufferSize);
    }

    /** One call of many: `out` and what is unread are `all`, before and after. */
    method ReadOne(bufferSize: nat, out: seq<Entry>, ghost all: seq<Entry>, ghost large: bool) returns (out': seq<Entry>, end: bool)
      requires Valid() && out + Unread() == all && (large ==> Takes(bufferSize, all))
      modifies this
      ensures Valid() && failures >= old(failures)
      ensures out' + Unread() == all && |out'| >= |out|
      ensures (end ==> Unread() == []) && (old(Unread()) == [] ==> Unread() == [])
      ensures && failures == old(failures) && RecordSize(nameLimit) != 0 && NamesOk(entries) && large
              ==> end || |out'| > |out|
    {
      out', end := out, false;
      NextOfRest(out, Unread(), all);
      var status, _, entry := Read(bufferSize);
      if status == Success && entry.Some? {
        out' := out + [entry.value];
      } else if status == Success {
        end := true;
      }
    }

    /** Calls one after the other; `large` says of some buffers that they can take every entry. */
    method ReadAll(bufferSizes: seq<nat>, ghost all: seq<Entry>, ghost large: seq<bool>) returns (out: seq<Entry>, ended: bool)
      requires Valid() && Unread() == all
      requires |large| == |bufferSizes| && forall i :: 0 <= i < |large| && large[i] ==> Takes(bufferSizes[i], all)
      modifies this
      ensures Valid() && failures >= old(failures)
      ensures out + Unread() == all && (ended ==> Unread() == [])
      ensures failures == old(failures) && RecordSize(nameLimit) != 0 && NamesOk(entries) ==>
                ended || |out| >= Count(large, |large|)
    {
      out, ended := [], false;
      ghost var smooth, count := RecordSize(nameLimit) != 0 && NamesOk(entries), 0;
      var n := 0;
      while n < |bufferSizes|
        invariant 0 <= n <= |bufferSizes| && Valid() && failures >= old(failures)
        invariant out + Unread() == all && (ended ==> Unread() == [])
        invariant count == Count(large, n)
        invariant failures == old(failures) && smooth ==> ended || |out| >= count
      {
        ghost var flag := large[n];
        count := count + if flag then 1 else 0;
        var end;
        out, end := ReadOne(bufferSizes[n], out, all, flag);
        ended := ended || end;
        n := n + 1;
      }
    }

    /**
      Any number of calls, with buffers of any sizes: the entries come in order, each at most
      once, and the end of the directory is reported only after the last one. If no request
      fails and names are well-formed, one call for each entry and one more deliver all of them
      and the end; calls with a buffer that is too small do not count, and do no harm.
    */
    method ReadMany(bufferSizes: seq<nat>) returns (out: seq<Entry>, ended: bool)
      requires Valid()
      modifies this
      ensures Valid() && failures >= old(failures)
      ensures out + Unread() == old(Unread())
      ensures ended ==> out == old(Unread())
      ensures && failures == old(failures) && RecordSize(nameLimit) != 0 && NamesOk(entries)
              && Count(Taking(bufferSizes, old(Unread())), |bufferSizes|) > |old(Unread())|
              ==> ended && out == old(Unread())
    {
      ghost var all := Unread();
      out, ended := ReadAll(bufferSizes, all, Taking(bufferSizes, all));
    }

    /** A stream position that has exactly n convertible entries before it. */
    lemma {:induction false} PositionOf(n: nat, i: nat) returns (upTo: nat)
      requires i <= |entries| && n <= Rank(i)
      ensures upTo <= i && Rank(upTo) == n
      decreases i
    {
      upTo := i;
      if Rank(i) > n {
        upTo := PositionOf(n, i - 1);
      }
    }

    /**
      From the start, over the records themselves: what is delivered are the listable records
      up to some point of the stream, in order; that point is the end if the end is reported,
      and that is certain if no request fails, names are well-formed and more buffers than
      there are records can take the longest name.
    */
    method ReadFromStart(bufferSizes: seq<nat>) returns (out: seq<Entry>, ended: bool)
      requires Valid()
      modifies this
      ensures Valid() && failures >= old(failures)
      ensures exists picks, upTo: nat :: upTo <= |entries| && Lists(out, picks, upTo) && (ended ==> upTo == |entries|)
      ensures && failures == old(failures) && RecordSize(nameLimit) != 0 && NamesOk(entries)
              && Count(AtLeast(bufferSizes, 80 + 2 * nameLimit + 2), |bufferSizes|) > |entries|
              ==> ended
    {
      var _ := Rewind(0);
      ghost var all, large := Unread(), AtLeast(bufferSizes, 80 + 2 * nameLimit + 2);
      LongestFits(bufferSizes);
      out, ended := ReadAll(bufferSizes, all, large);
      ghost var rest := Unread();
      RankOfEnd();
      RankAtMost(|entries|);
      PrefixLists(out, rest);
    }

    lemma PrefixLists(out: seq<Entry>, rest: seq<Entry>)
      requires out + rest == Convertible(entries)
      ensures exists picks, upTo: nat :: upTo <= |entries| && Lists(out, picks, upTo) && (rest == [] ==> upTo == |entries|)
    {
      RankOfEnd();
      var upTo := PositionOf(|out|, |entries|);
      if rest == [] {
        upTo := |entries|;
      }
      assert Rank(upTo) == |out|;
      assert Convertible(entries)[..|out|] == out;
      var picks := ConvertibleLists(upTo);
      assert Lists(out, picks, upTo);
    }

    /** A buffer for the longest name can take every entry. */
    lemma LongestFits(bufferSizes: seq<nat>)
      ensures var large := AtLeast(bufferSizes, 80 + 2 * nameLimit + 2);
              forall i :: 0 <= i < |large| && large[i] ==> Takes(bufferSizes[i], Convertible(entries))
    {
      ConvertibleIsRecorded();
    }

    lemma {:induction false} RankAtMost(i: nat)
      requires i <= |entries|
      ensures Rank(i) <= i
      decreases i
    {
      if i > 0 {
        RankAtMost(i - 1);
      }
    }
  }

  /** Which of the buffers have that size. */
  ghost function AtLeast(bufferSizes: seq<nat>, size: nat): (flags: seq<bool>)
    ensures |flags| == |bufferSizes|
  {
    seq(|bufferSizes|, i requires 0 <= i < |bufferSizes| => bufferSizes[i] >= size)
  }

  /** A buffer of this size can take every entry. */
  ghost predicate Takes(bufferSize: nat, entries: seq<Entry>) {
    forall k :: 0 <= k < |entries| ==> entries[k].size <= bufferSize
  }

  /** Which of the buffers can take every entry. */
  ghost function Taking(bufferSizes: seq<nat>, entries: seq<Entry>): (flags: seq<bool>)
    ensures |flags| == |bufferSizes|
  {
    seq(|bufferSizes|, i requires 0 <= i < |bufferSizes| => Takes(bufferSizes[i], entries))
  }

  /** How many of the first n flags are set. */
  ghost function Count(flags: seq<bool>, n: nat): nat
    requires n <= |flags|
  {
    if n == 0 then 0 else Count(flags, n - 1) + if flags[n - 1] then 1 else 0
  }

  const NO_ATTR := FuseAttr(0, 0, 0, 0, 0, 0)
  const BAD_RECORD := Dirent([0x61, 0x62], 2, 1, NO_ATTR, 24)
  const GOOD_RECORD := Dirent([0x61], 3, 2, NO_ATTR, 24)

  lemma TwoRecords()
    ensures Dropped([0, 24, 24], 1, [BAD_RECORD, GOOD_RECORD]) == [BAD_RECORD, GOOD_RECORD]
    ensures Nodes([BAD_RECORD, GOOD_RECORD]) == multiset{2, 3}
    ensures Bytes([BAD_RECORD, GOOD_RECORD]) == 48
  {
    var chunk := [BAD_RECORD, GOOD_RECORD];
    assert chunk[1..] == [GOOD_RECORD] && [GOOD_RECORD][1..] == [];
    assert !NameFits([0, 24, 24], 1, chunk[0]);
    assert Nodes([GOOD_RECORD]) == Node(GOOD_RECORD) + Nodes([GOOD_RECORD][1..]) == multiset{3};
    assert Nodes(chunk) == Node(BAD_RECORD) + Nodes(chunk[1..]);
    assert Bytes(chunk) == 24 + Bytes([GOOD_RECORD]);
  }

  /**
    A failing input: the first of two records has a name longer than the limit, so neither
    node is ever forgotten.
  */
  method TwoRecordsLost(lib: TimeLib) returns (d: Directory, status: Status)
    ensures fresh(d) && status == ProtocolError
    ensures d.owed == multiset{2, 3}
  {
    d := new Directory([BAD_RECORD, GOOD_RECORD], 1, [0, 24, 24], 16, lib);
    TwoRecords();
    status := d.ConsumeStream();
    assert !d.NameOk(d.entries[0]);
  }

  /** Where a refill stands: records and bytes left of the chunk, the new cache, and two cookies. */
  datatype Refill = Refill(
    rest: seq<Dirent>,
    remaining: nat,
    infos: seq<Entry>,
    endCookie: nat,
    streamCookie: nat)

  function Bytes(chunk: seq<Dirent>): nat {
    if chunk == [] then 0 else chunk[0].bytes + Bytes(chunk[1..])
  }
}
