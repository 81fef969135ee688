/**
  Opening, closing, deleting and renaming files of the Virtio Filesystem.

  Every successful lookup makes the server count one more reference to a node, and
  every open request one more file handle. The driver has to give each of them back
  once, on every path through every operation. The server is an environment that may
  fail any request; a request that fails has no effect, and no lookup yields the node
  of the root directory.
*/
module FuseSession {
  import opened Efi
  import opened PathCanon
  import opened PathAppend
  import opened Namespace
  import opened FileInfo
  import DirCache

  /** VIRTIO_FS_FILE, as far as pathnames and server resources go; `stack` are the components of the pathname. */
  datatype File = File(stack: seq<Component>, nodeId: nat, handle: nat, isDirectory: bool, isOpenForWriting: bool)
  {
    /** CanonicalPathname */
    function Path(): seq<Char8> {
      Render(stack)
    }
  }

  /** What VirtioFsFuseAttrToEfiFileInfo() makes of a node's attributes. */
  datatype Kind = Kind(isDirectory: bool, isReadOnly: bool)

  // ----- canonical pathnames as components -----

  function StackOf(path: seq<Char8>): seq<Component> {
    if |path| <= 1 then [] else Split(path[1..])
  }

  predicate ValidPath(stack: seq<Component>) {
    ValidStack(stack) && |Render(stack)| <= MAX_PATHNAME_LENGTH
  }

  lemma StackOfPath(stack: seq<Component>)
    requires ValidStack(stack)
    ensures StackOf(Render(stack)) == stack
    ensures Render(stack) == [SLASH] <==> stack == []
  {
    if stack != [] {
      RenderLongerThanRoot(stack);
      SplitRender(stack);
    }
  }

  /** A pathname is its components, each behind a slash. */
  lemma {:induction false} RenderFrom(stack: seq<Component>, k: nat)
    requires k < |stack|
    ensures Dir(stack[..k]) + stack[k] <= Render(stack)
    ensures if k + 1 == |stack| then Render(stack) == Dir(stack[..k]) + stack[k]
            else Dir(stack[..k + 1]) == Dir(stack[..k]) + stack[k] + [SLASH] <= Render(stack)
    decreases |stack|
  {
    assert Parent(stack[..k + 1]) == stack[..k] && Last(stack[..k + 1]) == stack[k];
    if k + 1 == |stack| {
      assert stack[..k + 1] == stack;
    } else {
      var up := Parent(stack);
      RenderFrom(up, k);
      DirIsRender(up);
      assert up[..k] == stack[..k] && up[..k + 1] == stack[..k + 1];
      if k + 1 == |up| {
        assert stack[..k + 1] == up;
      }
    }
  }

  /** AsciiStrStr() for a slash: the first one at or behind `from`, or the end. */
  method FindSlash(path: seq<Char8>, from: nat) returns (k: nat)
    requires from <= |path|
    ensures from <= k <= |path|
    ensures k < |path| ==> path[k] == SLASH
    ensures SLASH !in path[from..k]
  {
    k := from;
    while k < |path| && path[k] != SLASH
      invariant from <= k <= |path|
      invariant SLASH !in path[from..k]
    {
      assert path[from..k + 1] == path[from..k] + [path[k]];
      k := k + 1;
    }
  }

  /** Behind the first k components, the text up to the next slash is component k. */
  lemma NextComponent(stack: seq<Component>, k: nat, next: nat)
    requires ValidStack(stack) && k < |stack|
    requires var from := |Dir(stack[..k])|; from <= next <= |Render(stack)|
    requires next < |Render(stack)| ==> Render(stack)[next] == SLASH
    requires SLASH !in Render(stack)[|Dir(stack[..k])|..next]
    ensures next < |Render(stack)| <==> k + 1 < |stack|
    ensures Render(stack)[|Dir(stack[..k])|..next] == stack[k]
    ensures k + 1 < |stack| ==> next + 1 == |Dir(stack[..k + 1])|
  {
    RenderFrom(stack, k);
    var path, from, c := Render(stack), |Dir(stack[..k])|, stack[k];
    assert ValidComponent(c);
    ValidHasNoSlash(c);
    assert Dir(stack[..k]) + c <= path;
    SlashAfter(path, from, c, next);
  }

  /** Between `from` and the next slash, or the end, lies the whole of a text without slashes. */
  lemma SlashAfter(path: seq<Char8>, from: nat, c: Component, next: nat)
    requires from + |c| <= |path| && path[from..from + |c|] == c && SLASH !in c
    requires from + |c| == |path| || path[from + |c|] == SLASH
    requires from <= next <= |path| && (next < |path| ==> path[next] == SLASH) && SLASH !in path[from..next]
    ensures next == from + |c|
  {
    SliceHas(path, from, from + |c|, next);
    SliceHas(path, from, next, from + |c|);
  }

  lemma SliceHas(s: seq<Char8>, from: nat, to: nat, k: nat)
    ensures from <= k < to <= |s| ==> s[k] in s[from..to]
  {
    if from <= k < to <= |s| {
      assert s[from..to][k - from] == s[k];
    }
  }

  /** The component between the given slash and the next one, if there is a next one. */
  method NextName(path: seq<Char8>, slash: nat, ghost stack: seq<Component>, ghost k: nat)
    returns (isLast: bool, name: Component, nextSlash: nat)
    requires ValidStack(stack) && path == Render(stack)
    requires k < |stack| && slash + 1 == |Dir(stack[..k])|
    ensures isLast <==> k + 1 == |stack|
    ensures name == stack[k]
    ensures !isLast ==> nextSlash + 1 == |Dir(stack[..k + 1])|
  {
    RenderFrom(stack, k);
    nextSlash := FindSlash(path, slash + 1);
    NextComponent(stack, k, nextSlash);
    isLast, name := nextSlash == |path|, path[slash + 1..nextSlash];
  }

  // ----- open files and what they hold -----

  /** The root directory is known without a lookup. */
  function Ref(node: nat): multiset<nat> {
    if node == ROOT_NODE then multiset{} else multiset{node}
  }

  lemma NoRefForRoot(net: multiset<nat>)
    ensures net + Ref(ROOT_NODE) == net
  {
  }

  function Total<T>(parts: seq<multiset<T>>): multiset<T> {
    if parts == [] then multiset{} else Total(parts[..|parts| - 1]) + parts[|parts| - 1]
  }

  /** What the server knows a file handle by, and what it was opened for; a directory handle is for reading. */
  datatype Grant = Grant(nodeId: nat, handle: nat, isDirectory: bool, writable: bool)

  function GrantOf(f: File): Grant {
    Grant(f.nodeId, f.handle, f.isDirectory, f.isOpenForWriting && !f.isDirectory)
  }

  function Refs(files: seq<File>): (r: seq<multiset<nat>>)
    ensures |r| == |files|
  {
    seq(|files|, i requires 0 <= i < |files| => Ref(files[i].nodeId))
  }

  function HandlesOf(files: seq<File>): (r: seq<multiset<Grant>>)
    ensures |r| == |files|
  {
    seq(|files|, i requires 0 <= i < |files| => multiset{GrantOf(files[i])})
  }

  /** One reference for each open file on a node other than the root. */
  function Held(files: seq<File>): multiset<nat> {
    Total(Refs(files))
  }

  /** One handle for each open file. */
  function Handles(files: seq<File>): multiset<Grant> {
    Total(HandlesOf(files))
  }

  lemma ForgetFirst(others: multiset<nat>, chunk: seq<DirCache.Dirent>)
    requires chunk != []
    ensures others + DirCache.Nodes(chunk) == others + DirCache.Nodes(chunk[1..]) + DirCache.Node(chunk[0])
  {
  }

  function Without<T>(s: seq<T>, i: nat): seq<T>
    requires i < |s|
  {
    s[..i] + s[i + 1..]
  }

  lemma Associate(a: multiset<nat>, b: multiset<nat>, c: multiset<nat>)
    ensures a + b + c == a + (b + c)
  {
  }

  lemma Swap<T>(a: multiset<T>, b: multiset<T>, c: multiset<T>)
    ensures a + b + c == a + c + b
  {
  }

  lemma TotalAppend<T>(parts: seq<multiset<T>>, p: multiset<T>)
    ensures Total(parts + [p]) == Total(parts) + p
  {
    assert (parts + [p])[..|parts|] == parts;
  }

  lemma {:induction false} TotalWithout<T>(parts: seq<multiset<T>>, i: nat)
    requires i < |parts|
    ensures Total(parts) == Total(Without(parts, i)) + parts[i]
    decreases |parts|
  {
    var last, front := parts[|parts| - 1], parts[..|parts| - 1];
    if i == |front| {
      assert Without(parts, i) == front;
    } else {
      TotalWithout(front, i);
      assert Without(parts, i) == Without(front, i) + [last];
      TotalAppend(Without(front, i), last);
      Swap(Total(Without(front, i)), parts[i], last);
    }
  }

  lemma HoldOneMore(files: seq<File>, f: File)
    ensures Held(files + [f]) == Held(files) + Ref(f.nodeId)
    ensures Handles(files + [f]) == Handles(files) + multiset{GrantOf(f)}
  {
    assert Refs(files + [f]) == Refs(files) + [Ref(f.nodeId)];
    assert HandlesOf(files + [f]) == HandlesOf(files) + [multiset{GrantOf(f)}];
    TotalAppend(Refs(files), Ref(f.nodeId));
    TotalAppend(HandlesOf(files), multiset{GrantOf(f)});
  }

  lemma HeldWithout(files: seq<File>, i: nat)
    requires i < |files|
    ensures Held(files) == Held(Without(files, i)) + Ref(files[i].nodeId)
  {
    assert Refs(Without(files, i)) == Without(Refs(files), i);
    TotalWithout(Refs(files), i);
  }

  lemma HandlesWithout(files: seq<File>, i: nat)
    requires i < |files|
    ensures Handles(files) == Handles(Without(files, i)) + multiset{GrantOf(files[i])}
  {
    assert HandlesOf(Without(files, i)) == Without(HandlesOf(files), i);
    TotalWithout(HandlesOf(files), i);
  }

  /** What a file holds depends neither on its pathname nor on its access mode. */
  lemma HoldSame(files: seq<File>, i: nat, f: File)
    requires i < |files| && GrantOf(f) == GrantOf(files[i])
    ensures Held(files[i := f]) == Held(files) && Handles(files[i := f]) == Handles(files)
  {
    assert Refs(files[i := f]) == Refs(files);
    assert HandlesOf(files[i := f]) == HandlesOf(files);
  }

  predicate SameFiles(files: seq<File>, others: seq<File>) {
    files == others
  }

  /**
    The driver holds a reference for each of the files `refs`, besides those that are
    `leaked`, and a handle for each of the files `open`. The lists are named twice so
    that only BooksExactly unfolds the sums.
  */
  ghost predicate Books(refs: seq<File>, open: seq<File>, net: multiset<nat>, leaked: multiset<nat>, netHandles: multiset<Grant>) {
    forall r, o :: SameFiles(r, refs) && SameFiles(o, open) ==> net == Held(r) + leaked && netHandles == Handles(o)
  }

  lemma BooksExactly(refs: seq<File>, open: seq<File>, net: multiset<nat>, leaked: multiset<nat>, netHandles: multiset<Grant>)
    ensures Books(refs, open, net, leaked, netHandles) <==> net == Held(refs) + leaked && netHandles == Handles(open)
  {
    assert SameFiles(refs, refs) && SameFiles(open, open);
  }

  lemma BooksOneMore(files: seq<File>, f: File, net: multiset<nat>, leaked: multiset<nat>, netHandles: multiset<Grant>)
    requires Books(files, files, net, leaked, netHandles)
    ensures Books(files + [f], files + [f], net + Ref(f.nodeId), leaked, netHandles + multiset{GrantOf(f)})
  {
    BooksExactly(files, files, net, leaked, netHandles);
    HoldOneMore(files, f);
    Swap(Held(files), leaked, Ref(f.nodeId));
    BooksExactly(files + [f], files + [f], net + Ref(f.nodeId), leaked, netHandles + multiset{GrantOf(f)});
  }

  lemma BooksSame(files: seq<File>, i: nat, f: File, net: multiset<nat>, leaked: multiset<nat>, netHandles: multiset<Grant>)
    requires i < |files| && GrantOf(f) == GrantOf(files[i])
    requires Books(files, files, net, leaked, netHandles)
    ensures Books(files[i := f], files[i := f], net, leaked, netHandles)
  {
    BooksExactly(files, files, net, leaked, netHandles);
    HoldSame(files, i, f);
    BooksExactly(files[i := f], files[i := f], net, leaked, netHandles);
  }

  ghost predicate FileOk(f: File) {
    && ValidPath(f.stack)
    && (f.nodeId == ROOT_NODE <==> f.stack == [])
  }

  /** One more file is open; its pathname is `stack`, which leads to its node. */
  ghost predicate Added(before: seq<File>, after: seq<File>, t: Tree, kinds: map<nat, Kind>, stack: seq<Component>, openForWriting: bool) {
    && |after| == |before| + 1 && after[..|before|] == before
    && var f := after[|before|];
       && f.stack == stack && f.isOpenForWriting == openForWriting
       && Leads(t, f) && KindFits(kinds, f)
  }

  /** What was not there before is now what the caller asked for. */
  ghost predicate MadeAsAsked(t: Tree, before: seq<File>, after: seq<File>, createDirectory: bool) {
    |after| == |before| + 1 && Resolve(t, after[|before|].stack) == None ==> after[|before|].isDirectory == createDirectory
  }

  /** Opening adds at most the one entry at the end of the pathname. */
  ghost predicate OneMoreEntry(t: Tree, t': Tree, dir: nat, name: Component) {
    t' == t || ((dir, name) !in t && (dir, name) in t' && t' == t[(dir, name) := t'[(dir, name)]])
  }

  ghost predicate TreeAfterOpen(t: Tree, t': Tree, stack: seq<Component>, permitCreation: bool) {
    || t' == t
    || (permitCreation && stack != [] && Resolve(t, Parent(stack)).Some? &&
          OneMoreEntry(t, t', Resolve(t, Parent(stack)).value, Last(stack)))
  }

  /** The root that has just been opened may be marked writeable, if it is. */
  lemma AddedForWriting(before: seq<File>, mid: seq<File>, after: seq<File>, t: Tree, kinds: map<nat, Kind>, openForWriting: bool)
    requires Added(before, mid, t, kinds, [], false) && |after| == |mid|
    requires after == mid[|mid| - 1 := mid[|mid| - 1].(isOpenForWriting := openForWriting)]
    requires openForWriting ==> ROOT_NODE in kinds && !kinds[ROOT_NODE].isReadOnly
    ensures Added(before, after, t, kinds, [], openForWriting)
  {
    assert after[..|before|] == mid[..|before|];
  }

  ghost predicate AllOk(files: seq<File>) {
    forall i :: 0 <= i < |files| ==> FileOk(files[i])
  }

  lemma OkWithout(files: seq<File>, i: nat)
    requires AllOk(files) && i < |files|
    ensures AllOk(Without(files, i))
  {
  }

  lemma OkUpdate(files: seq<File>, i: nat, f: File)
    requires AllOk(files) && i < |files| && FileOk(f)
    ensures AllOk(files[i := f])
  {
  }

  lemma OkAppend(files: seq<File>, f: File)
    requires AllOk(files) && FileOk(f)
    ensures AllOk(files + [f])
  {
  }

  /** The file's pathname still leads to its node. */
  predicate Leads(t: Tree, f: File) {
    Resolve(t, f.stack) == Some(f.nodeId)
  }

  /** The file was recognised for what it is, and is open for writing only where that is allowed. */
  predicate KindFits(kinds: map<nat, Kind>, f: File) {
    && (f.nodeId == ROOT_NODE ==> f.isDirectory)
    && (f.nodeId != ROOT_NODE ==> f.nodeId in kinds && kinds[f.nodeId].isDirectory == f.isDirectory)
    && (f.isOpenForWriting ==> f.nodeId in kinds && !kinds[f.nodeId].isReadOnly)
  }

  /** The first k components, which end at `slash`, lead to a node. */
  ghost predicate Halfway(stack: seq<Component>, k: nat, slash: nat, t: Tree, kinds: map<nat, Kind>, node: nat) {
    k < |stack| && slash + 1 == |Dir(stack[..k])| && Descend(t, kinds, stack[..k]) == Some(node)
  }

  lemma OneFurther(stack: seq<Component>, k: nat, slash: nat, nextSlash: nat, t: Tree, kinds: map<nat, Kind>, node: nat, next: nat)
    requires Halfway(stack, k, slash, t, kinds, node) && k + 1 < |stack|
    requires nextSlash + 1 == |Dir(stack[..k + 1])| && Subdirectory(t, kinds, node, stack[k]) == Some(next)
    ensures Halfway(stack, k + 1, nextSlash, t, kinds, next)
  {
    assert Parent(stack[..k + 1]) == stack[..k];
  }

  /** Where a directory is missing, no descent gets through. */
  lemma NoFurther(stack: seq<Component>, k: nat, t: Tree, kinds: map<nat, Kind>, node: nat)
    requires k + 1 < |stack| && Descend(t, kinds, stack[..k]) == Some(node)
    ensures Subdirectory(t, kinds, node, stack[k]) == None ==> Descend(t, kinds, Parent(stack)) == None
  {
    assert Parent(stack[..k + 1]) == stack[..k];
    if Subdirectory(t, kinds, node, stack[k]) == None {
      NoDescentBeyond(t, kinds, stack[..k + 1], Parent(stack));
    }
  }

  lemma {:induction false} NoDescentBeyond(t: Tree, kinds: map<nat, Kind>, p: seq<Component>, q: seq<Component>)
    requires Descend(t, kinds, p) == None && p <= q
    ensures Descend(t, kinds, q) == None
    decreases |q|
  {
    if p != q {
      assert p <= Parent(q);
      NoDescentBeyond(t, kinds, p, Parent(q));
    }
  }

  /** The directory of that name in a directory. */
  function Subdirectory(t: Tree, kinds: map<nat, Kind>, dir: nat, name: Component): Option<nat> {
    var n := Child(t, dir, name);
    if n.Some? && n.value in kinds && kinds[n.value].isDirectory then n else None
  }

  /** The directory that a pathname denotes, if it leads through directories only. */
  function Descend(t: Tree, kinds: map<nat, Kind>, path: seq<Component>): Option<nat>
    decreases |path|
  {
    if path == [] then Some(ROOT_NODE)
    else
      var dir := Descend(t, kinds, Parent(path));
      if dir.Some? then Subdirectory(t, kinds, dir.value, Last(path)) else None
  }

  lemma {:induction false} DescendResolves(t: Tree, kinds: map<nat, Kind>, path: seq<Component>)
    ensures Descend(t, kinds, path).Some? ==> Resolve(t, path) == Descend(t, kinds, path)
    decreases |path|
  {
    if path != [] {
      DescendResolves(t, kinds, Parent(path));
    }
  }

  /** The nodes that are directories. */
  function Dirs(kinds: map<nat, Kind>): set<nat> {
    {ROOT_NODE} + set n | n in kinds && kinds[n].isDirectory
  }

  /** No entry is lost or changed, and a tree stays a tree. */
  ghost predicate Grows(t: Tree, kinds: map<nat, Kind>, t': Tree, kinds': map<nat, Kind>) {
    Extends(t, t') && (IsTree(t, Dirs(kinds)) ==> IsTree(t', Dirs(kinds')))
  }

  lemma CreateGrows(t: Tree, kinds: map<nat, Kind>, dir: nat, name: Component, n: nat, kind: Kind)
    requires dir in Dirs(kinds) && (dir, name) !in t && FreshNode(t, n) && n != dir
    ensures Grows(t, kinds, t[(dir, name) := n], kinds[n := kind])
  {
    if IsTree(t, Dirs(kinds)) {
      AddKeepsTree(t, Dirs(kinds), dir, name, n, Dirs(kinds[n := kind]));
    }
  }

  /** Creating an entry and removing it again leaves the kind of its node behind, and no more. */
  lemma CreateAndRemove(t: Tree, kinds: map<nat, Kind>, dir: nat, name: Component, n: nat, kind: Kind)
    requires dir in Dirs(kinds) && (dir, name) !in t && FreshNode(t, n) && n != dir
    ensures t[(dir, name) := n] - {(dir, name)} == t
    ensures Grows(t, kinds, t, kinds[n := kind])
  {
    if IsTree(t, Dirs(kinds)) {
      KindOfFresh(t, Dirs(kinds), n, Dirs(kinds[n := kind]));
    }
  }

  predicate NeverRoot(t: Tree) {
    forall e :: e in t ==> t[e] != ROOT_NODE
  }

  /** The comparison of two pathnames in Rename(). */
  method TestBelow(f: File, other: File) returns (below: bool)
    requires FileOk(f) && FileOk(other) && f.stack != []
    ensures below <==> PathBelow(f, other)
  {
    below := LiesBelow(f.Path(), other.Path());
    LiesBelowExact(f.stack, other.stack);
  }

  ghost predicate NoneBelow(files: seq<File>, i: nat, n: nat)
    requires i < |files| && n <= |files|
  {
    forall k :: 0 <= k < n && k != i ==> !PathBelow(files[i], files[k])
  }

  lemma NotThisOne(files: seq<File>, i: nat, n: nat)
    requires i < |files| && n < |files| && NoneBelow(files, i, n)
    requires n == i || !PathBelow(files[i], files[n])
    ensures NoneBelow(files, i, n + 1)
  {
  }

  /** The directory check of Rename(): it finds another file at or below file i exactly if there is one. */
  method AnotherFileBelow(files: seq<File>, i: nat) returns (found: bool)
    requires i < |files| && AllOk(files) && files[i].stack != []
    ensures found <==> !Alone(files, i)
  {
    var j := 0;
    while j < |files|
      invariant 0 <= j <= |files|
      invariant NoneBelow(files, i, j)
    {
      if j != i {
        var below := TestBelow(files[i], files[j]);
        if below {
          return true;
        }
      }
      NotThisOne(files, i, j);
      j := j + 1;
    }
    return false;
  }

  class FileSystem {
    var openFiles: seq<File>
    var tree: Tree                        // the server's directories
    var kinds: map<nat, Kind>             // the server's nodes that UEFI can express
    ghost var net: multiset<nat>          // lookups granted minus forgets sent
    ghost var lost: multiset<nat>         // forgets that did not reach the server
    ghost var netHandles: multiset<Grant>   // handles granted minus releases sent
    ghost var lostHandles: multiset<Grant>  // releases that did not reach the server
    ghost var chunks: seq<seq<DirCache.Dirent>>  // every chunk of a directory that the server has sent
    ghost var leaked: multiset<nat>       // references that stayed behind in them
    ghost var refusals: nat               // requests that the server failed though it could have served them
    const nameLimit: nat                  // from FUSE_STATFS
    const recordSizes: seq<nat>           // VIRTIO_FS_FUSE_DIRENTPLUS_RESPONSE_SIZE, by name length

    ghost predicate Valid()
      reads this
    {
      && NeverRoot(tree)
      && AllOk(openFiles)
      && Books(openFiles, openFiles, net, leaked, netHandles)
      && Logged()
    }

    /** What stays behind are the nodes of each chunk from its first malformed record on, and nothing else. */
    ghost predicate Logged()
      reads this`leaked, this`chunks
    {
      DirCache.Leaves(recordSizes, nameLimit, chunks, leaked)
    }

    ghost function Now(): State
      reads this`openFiles, this`tree, this`kinds
    {
      State(openFiles, tree, kinds)
    }

    /** The references that the server counts. */
    ghost function Counted(): multiset<nat>
      reads this
    {
      net + lost
    }

    /** Only nodes that have been looked up and not forgotten may be named in requests. */
    ghost predicate Usable(node: nat)
      reads this`net
    {
      node == ROOT_NODE || node in net
    }

    constructor (tree: Tree, kinds: map<nat, Kind>, nameLimit: nat, recordSizes: seq<nat>)
      requires NeverRoot(tree)
      ensures Valid() && openFiles == [] && lost == multiset{} && lostHandles == multiset{} && chunks == []
      ensures this.tree == tree && this.kinds == kinds
      ensures this.nameLimit == nameLimit && this.recordSizes == recordSizes
    {
      this.nameLimit := nameLimit;
      this.recordSizes := recordSizes;
      chunks, leaked, refusals := [], multiset{}, 0;
      this.tree := tree;
      this.kinds := kinds;
      openFiles := [];
      net, lost, netHandles, lostHandles := multiset{}, multiset{}, multiset{}, multiset{};
      new;
      DirCache.LeavesExactly(recordSizes, nameLimit, chunks, leaked);
      BooksExactly([], [], net, leaked, netHandles);
    }

    // ----- the server -----

    method Lookup(dir: nat, name: Component) returns (status: Status, nodeId: nat, kind: Option<Kind>)
      requires NeverRoot(tree) && Usable(dir)
      modifies this`net, this`refusals
      ensures status.IsError() ==> net == old(net)
      ensures status == NotFound ==> (dir, name) !in tree
      ensures refusals == old(refusals) + if status.IsError() && (dir, name) in tree then 1 else 0
      ensures (dir, name) !in tree ==> status == NotFound
      ensures !status.IsError() ==>
                && Child(tree, dir, name) == Some(nodeId) && nodeId != ROOT_NODE && net == old(net) + multiset{nodeId}
                && kind == KindOf(nodeId)
    {
      status, nodeId, kind := *, 0, None;
      if (dir, name) !in tree {
        status := NotFound;
      } else if status == NotFound {
        status := DeviceError;
      } else if !status.IsError() {
        nodeId := tree[(dir, name)];
        kind := KindOf(nodeId);
        net := net + multiset{nodeId};
      }
      refusals := refusals + if status.IsError() && (dir, name) in tree then 1 else 0;
    }

    function KindOf(nodeId: nat): Option<Kind>
      reads this`kinds
    {
      if nodeId in kinds then Some(kinds[nodeId]) else None
    }

    method GetKind(nodeId: nat) returns (status: Status, kind: Option<Kind>)
      requires Usable(nodeId)
      modifies this`refusals
      ensures !status.IsError() ==> kind == KindOf(nodeId)
      ensures refusals == old(refusals) + if status.IsError() then 1 else 0
    {
      status, kind := *, KindOf(nodeId);
      refusals := refusals + if status.IsError() then 1 else 0;
    }

    /** FUSE_FORGET, sent as best effort; `others` are the references that remain. */
    method Forget(nodeId: nat, ghost others: multiset<nat>)
      requires net == others + multiset{nodeId}
      modifies this`net, this`lost
      ensures net == others
    {
      net := others;
      if * {
        lost := lost + multiset{nodeId};
      }
    }

    method ForgetUnlessRoot(nodeId: nat, ghost others: multiset<nat>)
      requires net == others + Ref(nodeId)
      modifies this`net, this`lost
      ensures net == others
    {
      if nodeId != ROOT_NODE {
        Forget(nodeId, others);
      }
    }

    /** FUSE_OPEN or FUSE_OPENDIR, which has no access mode; the server opens a node only as what it is. */
    method OpenNode(nodeId: nat, isDirectory: bool, forWriting: bool) returns (status: Status, handle: nat)
      requires Usable(nodeId)
      modifies this`netHandles, this`refusals
      ensures if status.IsError() then netHandles == old(netHandles)
              else netHandles == old(netHandles) + multiset{Grant(nodeId, handle, isDirectory, forWriting && !isDirectory)}
      ensures isDirectory != IsDirectoryNode(nodeId) ==> status.IsError()
      ensures refusals == old(refusals) + if status.IsError() && isDirectory == IsDirectoryNode(nodeId) then 1 else 0
    {
      status, handle := *, *;
      if isDirectory != IsDirectoryNode(nodeId) {
        return if status.IsError() then status else AccessDenied, handle;
      }
      refusals := refusals + if status.IsError() then 1 else 0;
      if !status.IsError() {
        netHandles := netHandles + multiset{Grant(nodeId, handle, isDirectory, forWriting && !isDirectory)};
      }
    }

    /** FUSE_RELEASE or FUSE_RELEASEDIR, of a handle that was granted for that node and that type. */
    method Release(nodeId: nat, handle: nat, isDirectory: bool, ghost writable: bool, ghost others: multiset<Grant>)
      requires Usable(nodeId) && netHandles == others + multiset{Grant(nodeId, handle, isDirectory, writable)}
      modifies this`netHandles, this`lostHandles
      ensures netHandles == others
    {
      netHandles := others;
      if * {
        lostHandles := lostHandles + multiset{Grant(nodeId, handle, isDirectory, writable)};
      }
    }

    /** FUSE_MKDIR, with a node that is not in use. */
    method MkDir(dir: nat, name: Component) returns (status: Status, nodeId: nat)
      requires NeverRoot(tree) && Usable(dir) && IsDirectoryNode(dir)
      modifies this`tree, this`kinds, this`net, this`refusals
      ensures NeverRoot(tree)
      ensures refusals == old(refusals) + if status.IsError() && (dir, name) !in tree then 1 else 0
      ensures status.IsError() ==> tree == old(tree) && kinds == old(kinds) && net == old(net)
      ensures !status.IsError() ==>
                && (dir, name) !in old(tree) && FreshNode(old(tree), nodeId) && nodeId != dir
                && tree == old(tree)[(dir, name) := nodeId] && kinds == old(kinds)[nodeId := Kind(true, false)]
                && net == old(net) + multiset{nodeId}
    {
      status, nodeId := *, *;
      if status.IsError() || (dir, name) in tree || !FreshNode(tree, nodeId) || nodeId == dir {
        refusals := refusals + if (dir, name) in tree then 0 else 1;
        status := if status.IsError() then status else AccessDenied;
        return;
      }
      tree := tree[(dir, name) := nodeId];
      kinds := kinds[nodeId := Kind(true, false)];
      net := net + multiset{nodeId};
    }

    /** FUSE_CREATE, which opens the file if it has come into existence meanwhile. */
    method OpenOrCreate(dir: nat, name: Component) returns (status: Status, nodeId: nat, handle: nat)
      requires NeverRoot(tree) && Usable(dir) && IsDirectoryNode(dir)
      modifies this`tree, this`kinds, this`net, this`netHandles, this`refusals
      ensures NeverRoot(tree) && Grows(old(tree), old(kinds), tree, kinds)
      ensures refusals >= old(refusals) && (status.IsError() && (dir, name) !in old(tree) ==> refusals > old(refusals))
      ensures OneMoreEntry(old(tree), tree, dir, name)
      ensures status.IsError() ==> net == old(net) && netHandles == old(netHandles)
      ensures !status.IsError() ==>
                && KindOf(nodeId) == Some(Kind(false, false))
                && Child(tree, dir, name) == Some(nodeId) && nodeId != ROOT_NODE
                && net == old(net) + multiset{nodeId} && netHandles == old(netHandles) + multiset{Grant(nodeId, handle, false, true)}
    {
      status, nodeId, handle := *, *, *;
      if status.IsError() {
        refusals := refusals + 1;
        return;
      }
      if (dir, name) in tree {
        nodeId := tree[(dir, name)];
        if KindOf(nodeId) != Some(Kind(false, false)) {
          return AccessDenied, nodeId, handle;
        }
      } else if !FreshNode(tree, nodeId) || nodeId == dir {
        refusals := refusals + 1;
        return DeviceError, nodeId, handle;
      } else {
        CreateGrows(tree, kinds, dir, name, nodeId, Kind(false, false));
        tree := tree[(dir, name) := nodeId];
        kinds := kinds[nodeId := Kind(false, false)];
      }
      net := net + multiset{nodeId};
      netHandles := netHandles + multiset{Grant(nodeId, handle, false, true)};
    }

    /** FUSE_UNLINK or FUSE_RMDIR; the server removes a node only as what it is. */
    method Remove(dir: nat, name: Component, isDirectory: bool) returns (status: Status)
      requires NeverRoot(tree) && Usable(dir)
      modifies this`tree, this`refusals
      ensures NeverRoot(tree)
      ensures refusals == old(refusals) + if status.IsError() && IsEntry(tree, kinds, dir, name, isDirectory) then 1 else 0
      ensures if status.IsError() then tree == old(tree)
              else status == Success && IsEntry(old(tree), kinds, dir, name, isDirectory) && tree == old(tree) - {(dir, name)}
    {
      status := *;
      if status.IsError() || !IsEntry(tree, kinds, dir, name, isDirectory) {
        refusals := refusals + if IsEntry(tree, kinds, dir, name, isDirectory) then 1 else 0;
        status := if status.IsError() then status else NotFound;
        return;
      }
      tree := tree - {(dir, name)};
      status := Success;
    }

    /** FUSE_RENAME2 with RENAME_NOREPLACE */
    method RenameEntry(dir: nat, name: Component, newDir: nat, newName: Component) returns (status: Status)
      requires NeverRoot(tree) && Usable(dir) && Usable(newDir)
      modifies this`tree, this`refusals
      ensures NeverRoot(tree)
      ensures refusals == old(refusals) + if status.IsError() && (dir, name) in tree && (newDir, newName) !in tree then 1 else 0
      ensures if status.IsError() then tree == old(tree)
              else
                && status == Success
                && (dir, name) in old(tree) && (newDir, newName) !in old(tree)
                && tree == (old(tree) - {(dir, name)})[(newDir, newName) := old(tree)[(dir, name)]]
    {
      status := *;
      if status.IsError() || (dir, name) !in tree || (newDir, newName) in tree {
        refusals := refusals + if (dir, name) in tree && (newDir, newName) !in tree then 1 else 0;
        status := if status.IsError() then status else AccessDenied;
        return;
      }
      tree := (tree - {(dir, name)})[(newDir, newName) := tree[(dir, name)]];
      status := Success;
    }

    // ----- pathname resolution -----

    /**
      VirtioFsLookupMostSpecificParentDir(): the node is the one that the pathname's
      parent leads to, and is the only reference that remains.
    */
    method LookupMostSpecificParentDir(path: seq<Char8>, ghost stack: seq<Component>)
      returns (status: Status, dirNodeId: nat, lastComponent: Component)
      requires NeverRoot(tree) && ValidStack(stack) && path == Render(stack)
      modifies this`net, this`lost, this`refusals
      ensures stack == [] ==> status == InvalidParameter
      ensures status.IsError() ==> net == old(net)
      ensures refusals >= old(refusals)
      ensures refusals == old(refusals) && stack != [] && Descend(tree, kinds, Parent(stack)).Some? ==> !status.IsError()
      ensures !status.IsError() ==>
                && stack != [] && lastComponent == Last(stack)
                && Descend(tree, kinds, Parent(stack)) == Resolve(tree, Parent(stack)) == Some(dirNodeId)
                && IsDirectoryNode(dirNodeId)
                && net == old(net) + Ref(dirNodeId)
    {
      dirNodeId, lastComponent := ROOT_NODE, [];
      StackOfPath(stack);
      if path == [SLASH] {
        return InvalidParameter, dirNodeId, lastComponent;
      }
      var slash := 0;
      ghost var k := 0;
      while true
        invariant Halfway(stack, k, slash, tree, kinds, dirNodeId)
        invariant net == old(net) + Ref(dirNodeId)
        invariant IsDirectoryNode(dirNodeId) && refusals == old(refusals)
        decreases |stack| - k
      {
        var isLast;
        status, isLast, lastComponent, slash, dirNodeId := LookupNext(path, slash, dirNodeId, stack, k, old(net));
        if status.IsError() {
          return;
        }
        if isLast {
          DescendResolves(tree, kinds, stack[..k]);
          return;
        }
        k := k + 1;
      }
    }

    /** The next component of the pathname: the last one is not looked up. */
    method LookupNext(path: seq<Char8>, slash: nat, dir: nat, ghost stack: seq<Component>, ghost k: nat, ghost others: multiset<nat>)
      returns (status: Status, isLast: bool, name: Component, slash': nat, dir': nat)
      requires NeverRoot(tree) && ValidStack(stack) && path == Render(stack)
      requires Halfway(stack, k, slash, tree, kinds, dir) && net == others + Ref(dir)
      modifies this`net, this`lost, this`refusals
      ensures refusals >= old(refusals)
      ensures status.IsError() ==>
                net == others && (refusals > old(refusals) || Descend(tree, kinds, Parent(stack)) == None)
      ensures !status.IsError() ==>
                && refusals == old(refusals) && name == stack[k] && (isLast <==> k + 1 == |stack|)
                && net == others + Ref(dir')
                && if isLast then dir' == dir else Halfway(stack, k + 1, slash', tree, kinds, dir') && IsDirectoryNode(dir')
    {
      dir' := dir;
      isLast, name, slash' := NextName(path, slash, stack, k);
      if isLast {
        return Success, isLast, name, slash', dir';
      }
      status, dir' := LookupDirectory(dir, name, others);
      if status.IsError() {
        NoFurther(stack, k, tree, kinds, dir);
        return;
      }
      OneFurther(stack, k, slash, slash', tree, kinds, dir, dir');
    }

    /** One step down: exchange the reference to a directory for one to a subdirectory. */
    method LookupDirectory(dir: nat, name: Component, ghost others: multiset<nat>) returns (status: Status, nodeId: nat)
      requires NeverRoot(tree) && net == others + Ref(dir)
      modifies this`net, this`lost, this`refusals
      ensures status.IsError() ==> net == others
      ensures refusals >= old(refusals)
      ensures if status.IsError() then refusals > old(refusals) || Subdirectory(tree, kinds, dir, name) == None
              else refusals == old(refusals) && Subdirectory(tree, kinds, dir, name) == Some(nodeId)
      ensures !status.IsError() ==> nodeId != ROOT_NODE && net == others + multiset{nodeId}
    {
      var kind;
      status, nodeId, kind := Lookup(dir, name);
      if status.IsError() {
        ForgetUnlessRoot(dir, others);
        return;
      }
      Swap(others, Ref(dir), multiset{nodeId});
      ForgetUnlessRoot(dir, others + multiset{nodeId});
      if kind == None {
        Forget(nodeId, others);
        return Unsupported, nodeId;
      }
      if !kind.value.isDirectory {
        Forget(nodeId, others);
        return AccessDenied, nodeId;
      }
    }

    // ----- opening -----

    /** InsertTailList(): the new file takes over a reference and a handle that `net0` and `handles0` do not have yet. */
    method Insert(f: File, ghost net0: multiset<nat>, ghost handles0: multiset<Grant>)
      requires NeverRoot(tree) && FileOk(f) && AllOk(openFiles) && Logged()
      requires Books(openFiles, openFiles, net0, leaked, handles0)
      requires net == net0 + Ref(f.nodeId) && netHandles == handles0 + multiset{GrantOf(f)}
      modifies this`openFiles
      ensures Valid() && openFiles == old(openFiles) + [f]
    {
      BooksOneMore(openFiles, f, net0, leaked, handles0);
      OkAppend(openFiles, f);
      openFiles := openFiles + [f];
    }

    /** VirtioFsOpenVolume() */
    method OpenVolume() returns (status: Status)
      requires Valid()
      modifies this`openFiles, this`netHandles, this`refusals
      ensures Valid() && refusals >= old(refusals)
      ensures refusals == old(refusals) ==> !status.IsError()
      ensures status.IsError() ==> openFiles == old(openFiles)
      ensures !status.IsError() ==> Added(old(openFiles), openFiles, tree, kinds, [], false)
    {
      var handle;
      status, handle := OpenNode(ROOT_NODE, true, false);
      if status.IsError() {
        return;
      }
      NoRefForRoot(net);
      Insert(File([], ROOT_NODE, handle, true, false), net, old(netHandles));
    }

    /** Whether the root directory may be written. */
    method CheckRootWritable() returns (status: Status)
      modifies this`refusals
      ensures refusals >= old(refusals)
      ensures !status.IsError() ==> ROOT_NODE in kinds && !kinds[ROOT_NODE].isReadOnly
      ensures refusals == old(refusals) && ROOT_NODE in kinds && !kinds[ROOT_NODE].isReadOnly ==> !status.IsError()
    {
      var kind;
      status, kind := GetKind(ROOT_NODE);
      if status.IsError() {
        return;
      }
      if kind == None {
        return Unsupported;
      }
      if kind.value.isReadOnly {
        return AccessDenied;
      }
    }

    method SetLastWritable(openForWriting: bool)
      requires Valid() && openFiles != [] && openFiles[|openFiles| - 1].isDirectory
      modifies this`openFiles
      ensures Valid() && |openFiles| == |old(openFiles)|
      ensures openFiles == old(openFiles)[|openFiles| - 1 := old(openFiles)[|openFiles| - 1].(isOpenForWriting := openForWriting)]
    {
      var last := |openFiles| - 1;
      var f := openFiles[last].(isOpenForWriting := openForWriting);
      BooksSame(openFiles, last, f, net, leaked, netHandles);
      OkUpdate(openFiles, last, f);
      openFiles := openFiles[last := f];
    }

    /** OpenRootDirectory(): one more root handle, for writing only if the root is writeable. */
    method OpenRootDirectory(openForWriting: bool) returns (status: Status)
      requires Valid()
      modifies this`openFiles, this`netHandles, this`refusals
      ensures Valid() && refusals >= old(refusals)
      ensures refusals == old(refusals) ==> (!status.IsError() <==> RootOpens(kinds, openForWriting))
      ensures status.IsError() ==> openFiles == old(openFiles)
      ensures !status.IsError() ==> Added(old(openFiles), openFiles, tree, kinds, [], openForWriting)
    {
      if openForWriting {
        status := CheckRootWritable();
        if status.IsError() {
          return;
        }
      }
      status := OpenVolume();
      if status.IsError() {
        return;
      }
      ghost var mid := openFiles;
      SetLastWritable(openForWriting);
      AddedForWriting(old(openFiles), mid, openFiles, tree, kinds, openForWriting);
    }

    predicate IsDirectoryNode(nodeId: nat)
      reads this`kinds
    {
      nodeId == ROOT_NODE || (nodeId in kinds && kinds[nodeId].isDirectory)
    }

    predicate Fits(nodeId: nat, isDirectory: bool, openForWriting: bool)
      reads this`kinds
    {
      && KindOf(nodeId).Some?
      && kinds[nodeId].isDirectory == isDirectory
      && !(openForWriting && kinds[nodeId].isReadOnly)
    }

    /** OpenExistentFileOrDirectory(): NotFound means that there is no such entry, and nothing else. */
    method OpenExistent(dir: nat, name: Component, openForWriting: bool)
      returns (status: Status, nodeId: nat, handle: nat, isDirectory: bool)
      requires NeverRoot(tree) && Usable(dir)
      modifies this`net, this`lost, this`netHandles, this`refusals
      ensures status == NotFound ==> (dir, name) !in tree
      ensures refusals >= old(refusals) && ((dir, name) !in tree ==> status == NotFound && refusals == old(refusals))
      ensures refusals == old(refusals) && (dir, name) in tree ==> (!status.IsError() <==> NodeOpens(kinds, tree[(dir, name)], openForWriting))
      ensures status.IsError() ==> net == old(net) && netHandles == old(netHandles)
      ensures !status.IsError() ==>
                && Child(tree, dir, name) == Some(nodeId) && nodeId != ROOT_NODE
                && net == old(net) + multiset{nodeId} && netHandles == old(netHandles) + multiset{Grant(nodeId, handle, isDirectory, openForWriting && !isDirectory)}
                && Fits(nodeId, isDirectory, openForWriting)
    {
      handle, isDirectory := 0, false;
      var kind;
      status, nodeId, kind := Lookup(dir, name);
      if status.IsError() {
        return;
      }
      if kind == None {
        status := Unsupported;
      } else if openForWriting && kind.value.isReadOnly {
        status := AccessDenied;
      } else {
        isDirectory := kind.value.isDirectory;
        status, handle := OpenNode(nodeId, isDirectory, openForWriting);
      }
      if status.IsError() {
        Forget(nodeId, old(net));
        status := if status == NotFound then DeviceError else status;
      }
    }

    /** CreateDirectory(): a directory that cannot be opened is removed again. */
    method CreateDirectory(dir: nat, name: Component) returns (status: Status, nodeId: nat, handle: nat)
      requires NeverRoot(tree) && Usable(dir) && IsDirectoryNode(dir)
      modifies this`tree, this`kinds, this`net, this`lost, this`netHandles, this`refusals
      ensures NeverRoot(tree) && Grows(old(tree), old(kinds), tree, kinds)
      ensures refusals >= old(refusals) && (refusals == old(refusals) && (dir, name) !in old(tree) ==> !status.IsError())
      ensures OneMoreEntry(old(tree), tree, dir, name)
      ensures status.IsError() && refusals <= old(refusals) + 1 ==> tree == old(tree)
      ensures status.IsError() ==> net == old(net) && netHandles == old(netHandles)
      ensures !status.IsError() ==>
                && KindOf(nodeId) == Some(Kind(true, false))
                && Child(tree, dir, name) == Some(nodeId) && nodeId != ROOT_NODE
                && net == old(net) + multiset{nodeId} && netHandles == old(netHandles) + multiset{Grant(nodeId, handle, true, false)}
    {
      handle := 0;
      status, nodeId := MkDir(dir, name);
      if status.IsError() {
        return;
      }
      CreateGrows(old(tree), old(kinds), dir, name, nodeId, Kind(true, false));
      status, handle := OpenNode(nodeId, true, false);
      if status.IsError() {
        RemoveAgain(dir, name, nodeId, old(tree), old(kinds), old(net));
      }
    }

    /** Take a new directory back; the server may fail to remove it. */
    method RemoveAgain(dir: nat, name: Component, nodeId: nat, ghost t: Tree, ghost k: map<nat, Kind>, ghost others: multiset<nat>)
      requires NeverRoot(tree) && Usable(dir) && dir in Dirs(k)
      requires (dir, name) !in t && FreshNode(t, nodeId) && nodeId != dir
      requires tree == t[(dir, name) := nodeId] && kinds == k[nodeId := Kind(true, false)]
      requires net == others + multiset{nodeId}
      modifies this`tree, this`net, this`lost, this`refusals
      ensures NeverRoot(tree) && Grows(t, k, tree, kinds)
      ensures OneMoreEntry(t, tree, dir, name)
      ensures net == others && refusals >= old(refusals)
      ensures refusals == old(refusals) ==> tree == t
    {
      CreateGrows(t, k, dir, name, nodeId, Kind(true, false));
      CreateAndRemove(t, k, dir, name, nodeId, Kind(true, false));
      var _ := Remove(dir, name, true);
      Forget(nodeId, others);
    }

    /** The existing entry, or a new one where creation is allowed. */
    method OpenOrMake(dir: nat, name: Component, request: Request)
      returns (status: Status, nodeId: nat, handle: nat, isDirectory: bool)
      requires NeverRoot(tree) && Usable(dir) && IsDirectoryNode(dir)
      requires request.permitCreation ==> request.openForWriting
      modifies this`tree, this`kinds, this`net, this`lost, this`netHandles, this`refusals
      ensures NeverRoot(tree) && Grows(old(tree), old(kinds), tree, kinds)
      ensures !request.permitCreation ==> tree == old(tree) && kinds == old(kinds)
      ensures refusals >= old(refusals)
      ensures refusals == old(refusals) ==> (!status.IsError() <==> EntryOpens(old(tree), old(kinds), dir, name, request))
      ensures OneMoreEntry(old(tree), tree, dir, name)
      ensures !status.IsError() && (dir, name) !in old(tree) ==> request.permitCreation && isDirectory == request.createDirectory
      ensures status.IsError() ==> net == old(net) && netHandles == old(netHandles)
      ensures !status.IsError() ==>
                && Fits(nodeId, isDirectory, request.openForWriting)
                && Child(tree, dir, name) == Some(nodeId) && nodeId != ROOT_NODE
                && net == old(net) + multiset{nodeId} && netHandles == old(netHandles) + multiset{Grant(nodeId, handle, isDirectory, request.openForWriting && !isDirectory)}
    {
      status, nodeId, handle, isDirectory := OpenExistent(dir, name, request.openForWriting);
      if status == NotFound && request.permitCreation {
        isDirectory := request.createDirectory;
        if isDirectory {
          status, nodeId, handle := CreateDirectory(dir, name);
        } else {
          status, nodeId, handle := OpenOrCreate(dir, name);
        }
      }
    }

    /** Resolve a pathname other than the root's, down to a new reference and a new handle. */
    method Acquire(path: seq<Char8>, request: Request, ghost stack: seq<Component>)
      returns (status: Status, nodeId: nat, handle: nat, isDirectory: bool)
      requires NeverRoot(tree) && ValidStack(stack) && path == Render(stack) && stack != []
      requires request.permitCreation ==> request.openForWriting
      modifies this`tree, this`kinds, this`net, this`lost, this`netHandles, this`refusals
      ensures NeverRoot(tree) && Grows(old(tree), old(kinds), tree, kinds)
      ensures TreeAfterOpen(old(tree), tree, stack, request.permitCreation)
      ensures refusals >= old(refusals)
      ensures !status.IsError() && Resolve(old(tree), stack) == None ==> request.permitCreation && isDirectory == request.createDirectory
      ensures refusals == old(refusals) ==> (!status.IsError() <==> CanOpen(old(tree), old(kinds), stack, request))
      ensures status.IsError() ==> net == old(net) && netHandles == old(netHandles)
      ensures !status.IsError() ==>
                && Fits(nodeId, isDirectory, request.openForWriting)
                && stack != [] && Resolve(tree, stack) == Some(nodeId) && nodeId != ROOT_NODE
                && net == old(net) + multiset{nodeId} && netHandles == old(netHandles) + multiset{Grant(nodeId, handle, isDirectory, request.openForWriting && !isDirectory)}
    {
      nodeId, handle, isDirectory := 0, 0, false;
      var dir, name;
      status, dir, name := LookupMostSpecificParentDir(path, stack);
      if status.IsError() {
        return;
      }
      status, nodeId, handle, isDirectory := OpenOrMake(dir, name, request);
      if status.IsError() {
        ForgetUnlessRoot(dir, old(net));
        return;
      }
      Swap(old(net), Ref(dir), multiset{nodeId});
      ForgetUnlessRoot(dir, old(net) + multiset{nodeId});
      ExtendsKeeps(old(tree), tree, Parent(stack));
    }

    /** The part of VirtioFsSimpleFileOpen() that follows the pathname computation. */
    method OpenPath(path: seq<Char8>, request: Request, ghost stack: seq<Component>) returns (status: Status)
      requires Valid() && ValidStack(stack) && path == Render(stack) && |path| <= MAX_PATHNAME_LENGTH
      requires request.permitCreation ==> request.openForWriting
      modifies this`openFiles, this`tree, this`kinds, this`net, this`lost, this`netHandles, this`refusals
      ensures Valid() && Grows(old(tree), old(kinds), tree, kinds)
      ensures TreeAfterOpen(old(tree), tree, stack, request.permitCreation)
      ensures refusals >= old(refusals)
      ensures MadeAsAsked(old(tree), old(openFiles), openFiles, request.createDirectory)
      ensures !status.IsError() && Resolve(old(tree), stack) == None ==> request.permitCreation
      ensures refusals == old(refusals) ==> (!status.IsError() <==> CanOpen(old(tree), old(kinds), stack, request))
      ensures status.IsError() ==> openFiles == old(openFiles)
      ensures status.IsError() || Added(old(openFiles), openFiles, tree, kinds, stack, request.openForWriting)
    {
      StackOfPath(stack);
      if path == [SLASH] {
        status := OpenRootDirectory(request.openForWriting);
      } else {
        status := OpenChild(path, request, stack);
      }
    }

    /** A pathname other than the root's. */
    method OpenChild(path: seq<Char8>, request: Request, ghost stack: seq<Component>) returns (status: Status)
      requires Valid() && ValidStack(stack) && path == Render(stack) && |path| <= MAX_PATHNAME_LENGTH && stack != []
      requires request.permitCreation ==> request.openForWriting
      modifies this`openFiles, this`tree, this`kinds, this`net, this`lost, this`netHandles, this`refusals
      ensures Valid() && Grows(old(tree), old(kinds), tree, kinds)
      ensures TreeAfterOpen(old(tree), tree, stack, request.permitCreation)
      ensures refusals >= old(refusals)
      ensures MadeAsAsked(old(tree), old(openFiles), openFiles, request.createDirectory)
      ensures !status.IsError() && Resolve(old(tree), stack) == None ==> request.permitCreation
      ensures refusals == old(refusals) ==> (!status.IsError() <==> CanOpen(old(tree), old(kinds), stack, request))
      ensures status.IsError() ==> openFiles == old(openFiles)
      ensures status.IsError() || Added(old(openFiles), openFiles, tree, kinds, stack, request.openForWriting)
    {
      var nodeId, handle, isDirectory;
      status, nodeId, handle, isDirectory := Acquire(path, request, stack);
      if status.IsError() {
        return;
      }
      InsertNew(path, nodeId, handle, isDirectory, request.openForWriting, stack, old(net), old(netHandles));
    }

    /** The new file at the end of a pathname. */
    method InsertNew(path: seq<Char8>, nodeId: nat, handle: nat, isDirectory: bool, openForWriting: bool,
                     ghost stack: seq<Component>, ghost net0: multiset<nat>, ghost handles0: multiset<Grant>)
      requires NeverRoot(tree) && AllOk(openFiles) && Logged() && Books(openFiles, openFiles, net0, leaked, handles0)
      requires ValidStack(stack) && path == Render(stack) && |path| <= MAX_PATHNAME_LENGTH && stack != []
      requires Resolve(tree, stack) == Some(nodeId) && nodeId != ROOT_NODE && Fits(nodeId, isDirectory, openForWriting)
      requires net == net0 + multiset{nodeId}
      requires netHandles == handles0 + multiset{Grant(nodeId, handle, isDirectory, openForWriting && !isDirectory)}
      modifies this`openFiles
      ensures Valid() && Added(old(openFiles), openFiles, tree, kinds, stack, openForWriting)
      ensures openFiles[|old(openFiles)|].isDirectory == isDirectory
    {
      StackOfPath(stack);
      Insert(File(StackOf(path), nodeId, handle, isDirectory, openForWriting), net0, handles0);
    }

    /** VirtioFsSimpleFileOpen() */
    method Open(i: nat, fileName: seq<Char16>, openMode: bv64, attributes: bv64) returns (status: Status)
      requires Valid() && i < |openFiles|
      modifies this`openFiles, this`tree, this`kinds, this`net, this`lost, this`netHandles, this`refusals
      ensures Valid() && Grows(old(tree), old(kinds), tree, kinds)
      ensures status.IsError() ==> openFiles == old(openFiles)
      ensures refusals >= old(refusals)
      ensures match OpenTarget(old(openFiles)[i], fileName, openMode, attributes)
              case Refused(s) => status == s && tree == old(tree) && kinds == old(kinds)
              case Appended(p) =>
                && TreeAfterOpen(old(tree), tree, p.stack, openMode & MODE_CREATE != 0)
                && (status.IsError() || OpenedAs(old(Now()), Now(), p.stack, openMode, attributes))
                && (refusals == old(refusals) ==>
                      (!status.IsError() <==> CanOpen(old(tree), old(kinds), p.stack, RequestOf(openMode, attributes))))
    {
      var f := openFiles[i];
      var request := CheckRequest(openMode, attributes);
      if request == None {
        return InvalidParameter;
      }
      if !f.isDirectory && !IsAbsolute(fileName) {
        return InvalidParameter;
      }
      var base := f.stack;
      var path, rootEscape;
      status, path, rootEscape := AppendPath(f.Path(), fileName, base);
      if status.IsError() {
        return;
      }
      if rootEscape {
        return AccessDenied;
      }
      status := OpenPath(path, request.value, AppendSpec(base, fileName).place.stack);
    }

    // ----- closing and deleting -----

    /** Give the file's handle back. */
    method ReleaseFile(i: nat)
      requires i < |openFiles| && Books(openFiles, openFiles, net, leaked, netHandles)
      modifies this`netHandles, this`lostHandles
      ensures Books(openFiles, Without(openFiles, i), net, leaked, netHandles)
    {
      var f := openFiles[i];
      BooksExactly(openFiles, openFiles, net, leaked, netHandles);
      HeldWithout(openFiles, i);
      HandlesWithout(openFiles, i);
      Release(f.nodeId, f.handle, f.isDirectory, GrantOf(f).writable, Handles(Without(openFiles, i)));
      BooksExactly(openFiles, Without(openFiles, i), net, leaked, netHandles);
    }

    /** Give the file's reference back. */
    method ForgetFile(i: nat)
      requires i < |openFiles| && Books(openFiles, Without(openFiles, i), net, leaked, netHandles)
      modifies this`net, this`lost
      ensures Books(Without(openFiles, i), Without(openFiles, i), net, leaked, netHandles)
    {
      ghost var others := Without(openFiles, i);
      BooksExactly(openFiles, others, net, leaked, netHandles);
      HeldWithout(openFiles, i);
      Swap(Held(others), Ref(openFiles[i].nodeId), leaked);
      ForgetUnlessRoot(openFiles[i].nodeId, Held(others) + leaked);
      BooksExactly(others, others, net, leaked, netHandles);
    }

    /** RemoveEntryList(), once the file holds nothing any more. */
    method Drop(i: nat)
      requires i < |openFiles| && NeverRoot(tree) && AllOk(openFiles) && Logged()
      requires Books(Without(openFiles, i), Without(openFiles, i), net, leaked, netHandles)
      modifies this`openFiles
      ensures Valid() && openFiles == Without(old(openFiles), i)
    {
      OkWithout(openFiles, i);
      openFiles := Without(openFiles, i);
    }

    /** The last steps of Close() and Delete(). */
    method ForgetAndDrop(i: nat)
      requires i < |openFiles| && NeverRoot(tree) && AllOk(openFiles) && Logged()
      requires Books(openFiles, Without(openFiles, i), net, leaked, netHandles)
      modifies this`openFiles, this`net, this`lost
      ensures Valid() && openFiles == Without(old(openFiles), i)
    {
      ForgetFile(i);
      Drop(i);
    }

    /** VirtioFsSimpleFileClose() */
    method Close(i: nat) returns (status: Status)
      requires Valid() && i < |openFiles|
      modifies this`openFiles, this`net, this`lost, this`netHandles, this`lostHandles
      ensures Valid()
      ensures status == Success && openFiles == Without(old(openFiles), i)
    {
      ReleaseFile(i);
      ForgetAndDrop(i);
      return Success;
    }

    /** The removal proper: look the parent up, remove the entry, forget the parent. */
    method RemovePath(path: seq<Char8>, isDirectory: bool, ghost stack: seq<Component>) returns (status: Status)
      requires NeverRoot(tree) && ValidStack(stack) && path == Render(stack)
      modifies this`tree, this`net, this`lost, this`refusals
      ensures NeverRoot(tree) && net == old(net)
      ensures refusals >= old(refusals)
      ensures refusals == old(refusals) ==> (!status.IsError() <==> CanRemove(old(tree), kinds, stack, isDirectory))
      ensures status.IsError() ==> tree == old(tree)
      ensures !status.IsError() ==> status == Success && Removed(old(tree), tree, stack)
    {
      var dir, name;
      status, dir, name := LookupMostSpecificParentDir(path, stack);
      if status.IsError() {
        return;
      }
      status := Remove(dir, name, isDirectory);
      ForgetUnlessRoot(dir, old(net));
    }

    /** VirtioFsSimpleFileDelete(), between the release and the forget. */
    method RemoveFile(f: File) returns (status: Status)
      requires NeverRoot(tree) && FileOk(f)
      modifies this`tree, this`net, this`lost, this`refusals
      ensures NeverRoot(tree) && net == old(net)
      ensures refusals >= old(refusals)
      ensures refusals == old(refusals) ==> (status == Success <==> f.isOpenForWriting && CanRemove(old(tree), kinds, f.stack, f.isDirectory))
      ensures Deleted(status, f, old(tree), tree)
    {
      if !f.isOpenForWriting {
        return WarnDeleteFailure;
      }
      status := RemovePath(f.Path(), f.isDirectory, f.stack);
      if status.IsError() {
        status := WarnDeleteFailure;
      }
    }

    /** VirtioFsSimpleFileDelete() */
    method Delete(i: nat) returns (status: Status)
      requires Valid() && i < |openFiles|
      modifies this`openFiles, this`tree, this`net, this`lost, this`netHandles, this`lostHandles, this`refusals
      ensures Valid()
      ensures openFiles == Without(old(openFiles), i)
      ensures refusals >= old(refusals)
      ensures refusals == old(refusals) ==>
                var f := old(openFiles)[i];
                (status == Success <==> f.isOpenForWriting && CanRemove(old(tree), kinds, f.stack, f.isDirectory))
      ensures Deleted(status, old(openFiles)[i], old(tree), tree)
    {
      ReleaseFile(i);
      var f := openFiles[i];
      assert FileOk(f);
      status := RemoveFile(f);
      ForgetAndDrop(i);
    }

    // ----- renaming -----

    /** The requests of Rename(): both parents are looked up, and both are forgotten. */
    method MovePath(path: seq<Char8>, destination: seq<Char8>, ghost src: seq<Component>, ghost dst: seq<Component>)
      returns (status: Status)
      requires NeverRoot(tree) && ValidStack(src) && path == Render(src) && ValidStack(dst) && destination == Render(dst)
      modifies this`tree, this`net, this`lost, this`refusals
      ensures NeverRoot(tree) && net == old(net)
      ensures refusals >= old(refusals)
      ensures refusals == old(refusals) ==> (!status.IsError() <==> CanRename(old(tree), kinds, src, dst))
      ensures status.IsError() ==> tree == old(tree)
      ensures !status.IsError() ==>
                status == Success && Moved(old(tree), tree, src, dst) && Resolve(old(tree), Parent(dst)).value in Dirs(kinds)
    {
      var oldDir, oldName;
      status, oldDir, oldName := LookupMostSpecificParentDir(path, src);
      if status.IsError() {
        return;
      }
      status := MoveFrom(oldDir, oldName, destination, src, dst, net);
      ForgetUnlessRoot(oldDir, old(net));
    }

    /** The same, once the source's parent has been looked up. */
    method MoveFrom(oldDir: nat, oldName: Component, destination: seq<Char8>, ghost src: seq<Component>, ghost dst: seq<Component>,
                    ghost others: multiset<nat>)
      returns (status: Status)
      requires NeverRoot(tree) && ValidStack(dst) && destination == Render(dst) && net == others && Usable(oldDir)
      requires src != [] && oldName == Last(src)
      requires Descend(tree, kinds, Parent(src)) == Resolve(tree, Parent(src)) == Some(oldDir)
      modifies this`tree, this`net, this`lost, this`refusals
      ensures NeverRoot(tree) && net == others
      ensures refusals >= old(refusals)
      ensures refusals == old(refusals) ==> (!status.IsError() <==> CanRename(old(tree), kinds, src, dst))
      ensures status.IsError() ==> tree == old(tree)
      ensures !status.IsError() ==>
                status == Success && Moved(old(tree), tree, src, dst) && Resolve(old(tree), Parent(dst)).value in Dirs(kinds)
    {
      var newDir, newName;
      status, newDir, newName := LookupMostSpecificParentDir(destination, dst);
      if status.IsError() {
        return;
      }
      status := RenameEntry(oldDir, oldName, newDir, newName);
      ForgetUnlessRoot(newDir, others);
    }

    /** The two checks of Rename() behind the pathname comparison. */
    method CheckRename(i: nat) returns (status: Status)
      requires i < |openFiles| && AllOk(openFiles) && openFiles[i].stack != []
      ensures !status.IsError() <==> openFiles[i].isOpenForWriting && (openFiles[i].isDirectory ==> Alone(openFiles, i))
      ensures status.IsError() ==> status == AccessDenied
    {
      if openFiles[i].isDirectory {
        var blocked := AnotherFileBelow(openFiles, i);
        if blocked {
          return AccessDenied;
        }
      }
      return if openFiles[i].isOpenForWriting then Success else AccessDenied;
    }

    /** Move the file on the server and, if that worked, take over its new pathname. */
    method MoveFile(i: nat, destination: seq<Char8>, ghost dst: seq<Component>) returns (status: Status)
      requires Valid() && i < |openFiles| && openFiles[i].stack != []
      requires ValidPath(dst) && destination == Render(dst)
      modifies this`openFiles, this`tree, this`net, this`lost, this`refusals
      ensures Valid()
      ensures refusals >= old(refusals)
      ensures refusals == old(refusals) ==> (!status.IsError() <==> CanRename(old(tree), kinds, old(openFiles)[i].stack, dst))
      ensures status.IsError() ==> openFiles == old(openFiles) && tree == old(tree)
      ensures !status.IsError() ==>
                && status == Success
                && openFiles == old(openFiles)[i := old(openFiles)[i].(stack := dst)]
                && Moved(old(tree), tree, old(openFiles)[i].stack, dst)
                && Resolve(old(tree), Parent(dst)).value in Dirs(kinds)
    {
      status := MovePath(openFiles[i].Path(), destination, openFiles[i].stack, dst);
      if !status.IsError() {
        StackOfPath(dst);
        SetPath(i, StackOf(destination));
      }
    }

    /** The part of Rename() that follows the destination's computation. */
    method RenameTo(i: nat, destination: seq<Char8>, ghost dst: seq<Component>) returns (status: Status, moved: bool)
      requires Valid() && i < |openFiles| && openFiles[i].stack != []
      requires ValidPath(dst) && destination == Render(dst)
      modifies this`openFiles, this`tree, this`net, this`lost, this`refusals
      ensures Valid()
      ensures refusals >= old(refusals)
      ensures refusals == old(refusals) ==> (moved <==> MayRename(old(openFiles), i, old(tree), kinds, dst))
      ensures !moved ==> openFiles == old(openFiles) && tree == old(tree)
      ensures if dst == old(openFiles)[i].stack then status == Success && !moved else moved == !status.IsError()
      ensures moved ==> status == Success && Renamed(old(openFiles), openFiles, old(tree), tree, kinds, i, dst)
    {
      moved := false;
      StackOfPath(dst);
      StackOfPath(openFiles[i].stack);
      if openFiles[i].Path() == destination {
        return Success, moved;
      }
      status := CheckRename(i);
      if status.IsError() {
        return;
      }
      status := MoveFile(i, destination, dst);
      moved := !status.IsError();
    }

    /** Swap in a new pathname. */
    method SetPath(i: nat, stack: seq<Component>)
      requires Valid() && i < |openFiles| && openFiles[i].stack != []
      requires ValidPath(stack) && stack != []
      modifies this`openFiles
      ensures Valid() && openFiles == old(openFiles)[i := old(openFiles)[i].(stack := stack)]
    {
      var f := openFiles[i].(stack := stack);
      BooksSame(openFiles, i, f, net, leaked, netHandles);
      OkUpdate(openFiles, i, f);
      openFiles := openFiles[i := f];
    }

    /** Rename() of VirtioFsSimpleFileSetInfo(); `moved` tells a rename from a request that is none. */
    method Rename(i: nat, newFileName: seq<Char16>) returns (status: Status, moved: bool)
      requires Valid() && i < |openFiles|
      modifies this`openFiles, this`tree, this`net, this`lost, this`refusals
      ensures Valid()
      ensures refusals >= old(refusals)
      ensures !moved ==> openFiles == old(openFiles) && tree == old(tree)
      ensures match RenameTarget(old(openFiles)[i], newFileName)
              case Refused(s) => status == s && !moved
              case Appended(p) =>
                && (if p.stack == old(openFiles)[i].stack then status == Success && !moved
                    else moved == !status.IsError())
                && (refusals == old(refusals) ==> (moved <==> MayRename(old(openFiles), i, old(tree), kinds, p.stack)))
                && (moved ==> status == Success && Renamed(old(openFiles), openFiles, old(tree), tree, kinds, i, p.stack))
    {
      moved := false;
      var f := openFiles[i];
      StackOfPath(f.stack);
      if f.Path() == [SLASH] {
        status := if newFileName == [] then Success else AccessDenied;
        return;
      }
      var destination, rootEscape;
      status, destination, rootEscape := ComposeRenameDestination(f.Path(), newFileName, f.stack);
      if status.IsError() {
        return;
      }
      if rootEscape {
        return NotFound, false;
      }
      status, moved := RenameTo(i, destination, RenameTarget(f, newFileName).place.stack);
    }

    // ----- the end -----

    /** VirtioFsBindingStop(), as far as open files go. */
    method Stop() returns (status: Status)
      requires Valid()
      ensures status == if openFiles == [] then Success else AccessDenied
      ensures status == Success ==>
                netHandles == multiset{} && Counted() == DirCache.LostIn(recordSizes, nameLimit, chunks) + lost
    {
      if openFiles != [] {
        return AccessDenied;
      }
      DirCache.LeavesExactly(recordSizes, nameLimit, chunks, leaked);
      BooksExactly(openFiles, openFiles, net, leaked, netHandles);
      return Success;
    }

    // ----- reading directories -----

    /** FUSE_READDIRPLUS: every node in the chunk counts as looked up. */
    method ReadDirPlus() returns (status: Status, chunk: seq<DirCache.Dirent>)
      modifies this`net, this`chunks
      ensures if status.IsError() then net == old(net) && chunks == old(chunks)
              else net == old(net) + DirCache.Nodes(chunk) && chunks == old(chunks) + [chunk]
    {
      status, chunk := *, *;
      if !status.IsError() {
        net := net + DirCache.Nodes(chunk);
        chunks := chunks + [chunk];
      }
    }

    /** Forget the nodes of a chunk, up to the first malformed record. */
    method ForgetChunk(chunk: seq<DirCache.Dirent>, ghost others: multiset<nat>) returns (rest: seq<DirCache.Dirent>)
      requires net == others + DirCache.Nodes(chunk)
      modifies this`net, this`lost
      ensures rest == DirCache.Dropped(recordSizes, nameLimit, chunk)
      ensures net == others + DirCache.Nodes(rest)
    {
      rest := chunk;
      while rest != [] && DirCache.NameFits(recordSizes, nameLimit, rest[0])
        invariant net == others + DirCache.Nodes(rest)
        invariant DirCache.Dropped(recordSizes, nameLimit, rest) == DirCache.Dropped(recordSizes, nameLimit, chunk)
        decreases |rest|
      {
        ForgetFirst(others, rest);
        if rest[0].nodeId != 0 {
          Forget(rest[0].nodeId, others + DirCache.Nodes(rest[1..]));
        }
        rest := rest[1..];
      }
    }

    /**
      What RefillFileInfoCache() does with the references of a chunk. They all come back, except
      those behind a malformed record.
    */
    method ReadChunk(i: nat) returns (status: Status, chunk: seq<DirCache.Dirent>)
      requires Logged() && i < |openFiles|
      modifies this`net, this`lost, this`chunks, this`leaked
      ensures Logged()
      ensures if |chunks| == |old(chunks)| then
                chunks == old(chunks) && status.IsError() && net == old(net) && leaked == old(leaked)
              else
                && chunks == old(chunks) + [chunk]
                && status == (if DirCache.Dropped(recordSizes, nameLimit, chunk) == [] then Success else ProtocolError)
                && net == old(net) + DirCache.Nodes(DirCache.Dropped(recordSizes, nameLimit, chunk))
                && leaked == old(leaked) + DirCache.Nodes(DirCache.Dropped(recordSizes, nameLimit, chunk))
    {
      status, chunk := ReadDirPlus();
      if status.IsError() {
        return;
      }
      var rest := ForgetChunk(chunk, old(net));
      DirCache.LeavesOneMore(recordSizes, nameLimit, old(chunks), leaked, chunk);
      leaked := leaked + DirCache.Nodes(rest);
      status := if rest == [] then Success else ProtocolError;
    }

    // ----- runs -----

    /** One call; a file that is not open cannot be named. */
    method Step(call: Call)
      requires Valid()
      modifies this
      ensures Valid() && old(chunks) <= chunks && refusals >= old(refusals)
      ensures Allowed(call, old(Now()), Now())
      ensures refusals == old(refusals) ==> Served(call, old(Now()), Now())
    {
      match call {
        case CallReadDirectory(i) =>
          StepRead(i);
        case CallOpenVolume =>
          StepOpenVolume();
        case CallOpen(i, fileName, openMode, attributes) =>
          StepOpen(i, fileName, openMode, attributes);
        case CallClose(i) =>
          StepClose(i);
        case CallDelete(i) =>
          StepDelete(i);
        case CallRename(i, newFileName) =>
          StepRename(i, newFileName);
      }
    }

    method StepOpenVolume()
      requires Valid()
      modifies this`openFiles, this`netHandles, this`refusals
      ensures Valid() && Allowed(CallOpenVolume, old(Now()), Now()) && refusals >= old(refusals)
      ensures refusals == old(refusals) ==> Served(CallOpenVolume, old(Now()), Now())
    {
      var _ := OpenVolume();
    }

    method StepClose(i: nat)
      requires Valid()
      modifies this`openFiles, this`net, this`lost, this`netHandles, this`lostHandles
      ensures Valid() && Allowed(CallClose(i), old(Now()), Now())
    {
      if i < |openFiles| {
        var _ := Close(i);
      }
    }

    method StepDelete(i: nat)
      requires Valid()
      modifies this`openFiles, this`tree, this`net, this`lost, this`netHandles, this`lostHandles, this`refusals
      ensures Valid() && Allowed(CallDelete(i), old(Now()), Now()) && refusals >= old(refusals)
      ensures refusals == old(refusals) ==> Served(CallDelete(i), old(Now()), Now())
    {
      if i < |openFiles| {
        ghost var f := openFiles[i];
        var status := Delete(i);
        DeletedExactly(status, f, old(tree), tree);
      }
    }

    method StepOpen(i: nat, fileName: seq<Char16>, openMode: bv64, attributes: bv64)
      requires Valid()
      modifies this`openFiles, this`tree, this`kinds, this`net, this`lost, this`netHandles, this`refusals
      ensures Valid() && Allowed(CallOpen(i, fileName, openMode, attributes), old(Now()), Now()) && refusals >= old(refusals)
      ensures refusals == old(refusals) ==> Served(CallOpen(i, fileName, openMode, attributes), old(Now()), Now())
    {
      ghost var s := Now();
      if i < |openFiles| {
        var _ := Open(i, fileName, openMode, attributes);
        OpenIsAllowed(s, Now(), i, fileName, openMode, attributes);
      }
    }

    method StepRead(i: nat)
      requires Valid()
      modifies this`net, this`lost, this`chunks, this`leaked
      ensures Valid() && old(chunks) <= chunks
    {
      if i < |openFiles| {
        BooksExactly(openFiles, openFiles, net, leaked, netHandles);
        var _, chunk := ReadChunk(i);
        Associate(Held(openFiles), old(leaked), DirCache.Nodes(DirCache.Dropped(recordSizes, nameLimit, chunk)));
        BooksExactly(openFiles, openFiles, net, leaked, netHandles);
      }
    }

    method StepRename(i: nat, newFileName: seq<Char16>)
      requires Valid()
      modifies this`openFiles, this`tree, this`net, this`lost, this`refusals
      ensures Valid() && Allowed(CallRename(i, newFileName), old(Now()), Now()) && refusals >= old(refusals)
      ensures refusals == old(refusals) ==> Served(CallRename(i, newFileName), old(Now()), Now())
    {
      if i < |openFiles| {
        var _, _ := Rename(i, newFileName);
      }
    }

    /**
      Over every run, whatever the server answers: the driver holds one reference for each
      open file on a node other than the root, and one handle for each open file. Once no
      file is open, all that the server still counts are forgets and releases that got lost,
      and nodes behind malformed directory records. `trace` are the states between the calls;
      every open file's pathname leads to its node throughout, exactly if every call was calm.
      If the server refused nothing, every call did what it was asked for, where that was possible.
    */
    method Run(calls: seq<Call>) returns (ghost trace: seq<State>)
      requires Valid()
      modifies this
      ensures Valid() && old(chunks) <= chunks
      ensures net == Held(openFiles) + DirCache.LostIn(recordSizes, nameLimit, chunks) && netHandles == Handles(openFiles)
      ensures openFiles == [] ==>
                Counted() == DirCache.LostIn(recordSizes, nameLimit, chunks) + lost && netHandles == multiset{}
      ensures IsRun(calls, trace) && trace[0] == old(Now()) && trace[|calls|] == Now()
      ensures Coherent(trace[0]) ==> (AllCoherent(trace) <==> AllCalm(calls, trace))
      ensures refusals == old(refusals) ==> AllServed(calls, trace)
    {
      trace := [Now()];
      var n := 0;
      while n < |calls|
        invariant 0 <= n <= |calls| && Valid() && old(chunks) <= chunks
        invariant IsRun(calls[..n], trace) && trace[0] == old(Now()) && trace[n] == Now()
        invariant refusals >= old(refusals) && (refusals == old(refusals) ==> AllServed(calls[..n], trace))
      {
        Step(calls[n]);
        LongerRun(calls, n, trace, Now());
        if refusals == old(refusals) {
          LongerService(calls, n, trace, Now());
        }
        trace := trace + [Now()];
        n := n + 1;
      }
      assert calls[..n] == calls;
      RunCoherentExactly(calls, trace);
      BooksExactly(openFiles, openFiles, net, leaked, netHandles);
      DirCache.LeavesExactly(recordSizes, nameLimit, chunks, leaked);
    }
  }

  datatype Call =
    | CallOpenVolume
    | CallOpen(i: nat, fileName: seq<Char16>, openMode: bv64, attributes: bv64)
    | CallClose(i: nat)
    | CallDelete(i: nat)
    | CallReadDirectory(i: nat)
    | CallRename(i: nat, newFileName: seq<Char16>)

  /** What a call may change. */
  datatype State = State(files: seq<File>, tree: Tree, kinds: map<nat, Kind>)

  /** The states that a call may lead to, whatever the server answers. */
  ghost predicate Allowed(call: Call, s: State, s': State) {
    match call
    case CallOpenVolume =>
      s' == s || (s' == s.(files := s'.files) && Added(s.files, s'.files, s.tree, s.kinds, [], false))
    case CallOpen(i, fileName, openMode, attributes) =>
      && Grows(s.tree, s.kinds, s'.tree, s'.kinds)
      && (openMode & MODE_CREATE == 0 ==> s'.tree == s.tree)
      && (s'.files == s.files || (i < |s.files| && Opened(s, s', s.files[i], fileName, openMode, attributes)))
    case CallClose(i) =>
      s' == if i < |s.files| then s.(files := Without(s.files, i)) else s
    case CallDelete(i) =>
      if i < |s.files| then
        && s'.files == Without(s.files, i) && s'.kinds == s.kinds
        && (s'.tree == s.tree || (s.files[i].isOpenForWriting && Removed(s.tree, s'.tree, s.files[i].stack)))
      else s' == s
    case CallReadDirectory(_) =>
      s' == s
    case CallRename(i, newFileName) =>
      s' == s || (i < |s.files| && s'.kinds == s.kinds && RenamedAs(s, s', i, RenameTarget(s.files[i], newFileName)))
  }

  ghost predicate Opened(s: State, s': State, f: File, fileName: seq<Char16>, openMode: bv64, attributes: bv64) {
    var target := OpenTarget(f, fileName, openMode, attributes);
    target.Appended? && OpenedAs(s, s', target.place.stack, openMode, attributes)
  }

  /**
    One more file is open, at its place, for writing if the caller asked for that. If there
    was nothing at that place, there is now, in the directory it belongs to, a directory if
    the caller's attributes say so, and a regular file otherwise.
  */
  ghost predicate OpenedAs(s: State, s': State, stack: seq<Component>, openMode: bv64, attributes: bv64) {
    && Added(s.files, s'.files, s'.tree, s'.kinds, stack, openMode & MODE_WRITE != 0)
    && var f := s'.files[|s.files|];
       Resolve(s.tree, stack) == None ==>
         && openMode & MODE_CREATE != 0
         && f.isDirectory == (attributes & FILE_DIRECTORY != 0)
         && f.nodeId in s'.kinds && s'.kinds[f.nodeId].isDirectory == (attributes & FILE_DIRECTORY != 0)
  }

  lemma OpenIsAllowed(s: State, s': State, i: nat, fileName: seq<Char16>, openMode: bv64, attributes: bv64)
    requires i < |s.files| && Grows(s.tree, s.kinds, s'.tree, s'.kinds)
    requires match OpenTarget(s.files[i], fileName, openMode, attributes)
             case Refused(_) => s' == s
             case Appended(p) =>
               && TreeAfterOpen(s.tree, s'.tree, p.stack, openMode & MODE_CREATE != 0)
               && (s'.files == s.files || OpenedAs(s, s', p.stack, openMode, attributes))
    ensures Allowed(CallOpen(i, fileName, openMode, attributes), s, s')
  {
  }

  ghost predicate RenamedAs(s: State, s': State, i: nat, target: AppendResult)
    requires i < |s.files|
  {
    target.Appended? && Renamed(s.files, s'.files, s.tree, s'.tree, s.kinds, i, target.place.stack)
  }

  /** A file that was removed or moved was the only one open at or below its place, and was not moved into itself. */
  ghost predicate Calm(call: Call, s: State, s': State) {
    match call
    case CallDelete(i) => i < |s.files| && s'.tree != s.tree ==> Alone(s.files, i)
    case CallRename(i, newFileName) =>
      i < |s.files| && s'.tree != s.tree ==> CalmMove(s.files, i, RenameTarget(s.files[i], newFileName))
    case _ => true
  }

  ghost predicate IsRun(calls: seq<Call>, trace: seq<State>) {
    |trace| == |calls| + 1 && forall n :: 0 <= n < |calls| ==> Allowed(calls[n], trace[n], trace[n + 1])
  }

  ghost predicate AllCalm(calls: seq<Call>, trace: seq<State>)
    requires |trace| == |calls| + 1
  {
    forall n :: 0 <= n < |calls| ==> Calm(calls[n], trace[n], trace[n + 1])
  }

  /** Unless the server refuses, a call has its effect if and only if that is possible. */
  ghost predicate Served(call: Call, s: State, s': State) {
    match call
    case CallOpenVolume =>
      |s'.files| == |s.files| + 1
    case CallOpen(i, fileName, openMode, attributes) =>
      i < |s.files| ==>
        var target := OpenTarget(s.files[i], fileName, openMode, attributes);
        s'.files != s.files <==> target.Appended? && CanOpen(s.tree, s.kinds, target.place.stack, RequestOf(openMode, attributes))
    case CallClose(_) =>
      true
    case CallDelete(i) =>
      i < |s.files| ==>
        var f := s.files[i];
        s'.tree != s.tree <==> f.isOpenForWriting && CanRemove(s.tree, s.kinds, f.stack, f.isDirectory)
    case CallReadDirectory(_) =>
      true
    case CallRename(i, newFileName) =>
      i < |s.files| ==>
        var target := RenameTarget(s.files[i], newFileName);
        s'.files != s.files <==> target.Appended? && MayRename(s.files, i, s.tree, s.kinds, target.place.stack)
  }

  ghost predicate AllServed(calls: seq<Call>, trace: seq<State>) {
    |trace| == |calls| + 1 && forall n :: 0 <= n < |calls| ==> Served(calls[n], trace[n], trace[n + 1])
  }

  lemma LongerService(calls: seq<Call>, n: nat, trace: seq<State>, s: State)
    requires n < |calls| && AllServed(calls[..n], trace) && Served(calls[n], trace[n], s)
    ensures AllServed(calls[..n + 1], trace + [s])
  {
    var longer := trace + [s];
    forall k | 0 <= k < n + 1 ensures Served(calls[..n + 1][k], longer[k], longer[k + 1]) {
      assert k < n ==> calls[..n + 1][k] == calls[..n][k];
    }
  }

  /** A deletion that succeeds changes the tree. */
  lemma DeletedExactly(status: Status, f: File, t: Tree, t': Tree)
    requires Deleted(status, f, t, t')
    ensures status == Success <==> t' != t
  {
    if status == Success {
      assert (Resolve(t, Parent(f.stack)).value, Last(f.stack)) in t;
    }
  }

  ghost predicate AllCoherent(trace: seq<State>) {
    forall k :: 0 <= k < |trace| ==> Coherent(trace[k])
  }

  lemma LongerRun(calls: seq<Call>, n: nat, trace: seq<State>, s: State)
    requires n < |calls| && IsRun(calls[..n], trace) && Allowed(calls[n], trace[n], s)
    ensures IsRun(calls[..n + 1], trace + [s])
  {
    var longer := trace + [s];
    forall k | 0 <= k < n + 1 ensures Allowed(calls[..n + 1][k], longer[k], longer[k + 1]) {
      assert k < n ==> calls[..n + 1][k] == calls[..n][k];
    }
  }

  /**
    From a state where every pathname leads to its node, a call leads to such a state
    if and only if it was calm.
  */
  lemma CoherentExactly(call: Call, s: State, s': State)
    requires Allowed(call, s, s') && Coherent(s)
    ensures Coherent(s') <==> Calm(call, s, s')
  {
    match call {
      case CallOpenVolume =>
        assert Grows(s.tree, s.kinds, s'.tree, s'.kinds);
        OpenStaysCoherent(s, s');
      case CallOpen(_, _, _, _) =>
        OpenStaysCoherent(s, s');
      case CallClose(i) =>
        if i < |s.files| {
          CloseStaysCoherent(s, s', i);
        }
      case CallDelete(i) =>
        if i < |s.files| {
          DeleteExactly(s, s', i);
        }
      case CallReadDirectory(_) =>
      case CallRename(i, newFileName) =>
        if s' != s {
          RenameExactly(s, s', i, RenameTarget(s.files[i], newFileName).place.stack);
        }
    }
  }

  lemma {:induction false} CoherentUpTo(calls: seq<Call>, trace: seq<State>, k: nat)
    requires IsRun(calls, trace) && AllCalm(calls, trace) && Coherent(trace[0]) && k < |trace|
    ensures Coherent(trace[k])
  {
    if k > 0 {
      CoherentUpTo(calls, trace, k - 1);
      CoherentExactly(calls[k - 1], trace[k - 1], trace[k]);
    }
  }

  /** Every pathname leads to its node in every state of a run, if and only if all its calls were calm. */
  lemma RunCoherentExactly(calls: seq<Call>, trace: seq<State>)
    requires IsRun(calls, trace)
    ensures Coherent(trace[0]) ==> (AllCoherent(trace) <==> AllCalm(calls, trace))
  {
    if Coherent(trace[0]) {
      if AllCalm(calls, trace) {
        forall k | 0 <= k < |trace| ensures Coherent(trace[k]) {
          CoherentUpTo(calls, trace, k);
        }
      }
      if AllCoherent(trace) {
        forall n | 0 <= n < |calls| ensures Calm(calls[n], trace[n], trace[n + 1]) {
          CoherentExactly(calls[n], trace[n], trace[n + 1]);
        }
      }
    }
  }

  // ----- pathnames of files that stay open -----

  ghost predicate AllLead(t: Tree, files: seq<File>) {
    forall j :: 0 <= j < |files| ==> Leads(t, files[j])
  }

  /**
    A rename leaves every open file with a pathname that leads to it, if and only if no
    other file is open at or below the source. Rename() makes sure of that for directories.
  */
  lemma RenameKeepsPaths(files: seq<File>, i: nat, t: Tree, t': Tree, dst: seq<Component>)
    requires i < |files| && AllLead(t, files) && OnePathPerDirectory(t)
    requires Moved(t, t', files[i].stack, dst) && !(files[i].stack <= dst)
    ensures AllLead(t', files[i := files[i].(stack := dst)]) <==> Alone(files, i)
  {
    var src := files[i].stack;
    var after := files[i := files[i].(stack := dst)];
    assert src + [] == src && dst + [] == dst;
    SubtreeMoves(t, src, dst, []);
    forall j | 0 <= j < |files| && j != i
      ensures Leads(t', after[j]) <==> !PathBelow(files[i], files[j])
    {
      assert Leads(t, files[j]);
      RenameExact(t, src, dst, files[j].stack);
    }
    if AllLead(t', after) {
      forall j | 0 <= j < |files| && j != i ensures !PathBelow(files[i], files[j]) {
        assert Leads(t', after[j]);
      }
    }
  }

  /** A removal leaves exactly the files that are not at or below the removed entry. */
  lemma DeleteKeepsPaths(f: File, other: File, t: Tree, t': Tree)
    requires Removed(t, t', f.stack) && OnePathPerDirectory(t) && Leads(t, other)
    ensures Leads(t', other) <==> !PathBelow(f, other)
  {
    RemoveExact(t, f.stack, other.stack);
  }

  lemma LeadWithout(t: Tree, files: seq<File>, i: nat)
    requires i < |files|
    ensures AllLead(t, files) ==> AllLead(t, Without(files, i))
  {
    if AllLead(t, files) {
      forall j | 0 <= j < |files| - 1 ensures Leads(t, Without(files, i)[j]) {
        assert Leads(t, files[if j < i then j else j + 1]);
      }
    }
  }

  lemma LeadAppend(t: Tree, files: seq<File>, files': seq<File>)
    requires |files'| == |files| + 1 && files'[..|files|] == files && Leads(t, files'[|files|])
    ensures AllLead(t, files) ==> AllLead(t, files')
  {
    if AllLead(t, files) {
      forall j | 0 <= j < |files'| ensures Leads(t, files'[j]) {
        assert j < |files| ==> files'[j] == files'[..|files|][j];
      }
    }
  }

  /** The other files keep their pathnames if and only if the removed file was the only one at or below its place. */
  lemma DeleteKeepsOthers(files: seq<File>, i: nat, t: Tree, t': Tree)
    requires i < |files| && AllLead(t, files) && OnePathPerDirectory(t)
    requires Removed(t, t', files[i].stack)
    ensures AllLead(t', Without(files, i)) <==> Alone(files, i)
  {
    forall j | 0 <= j < |files| - 1
      ensures var k := if j < i then j else j + 1; Leads(t', Without(files, i)[j]) <==> !PathBelow(files[i], files[k])
    {
      var k := if j < i then j else j + 1;
      assert Leads(t, files[k]);
      DeleteKeepsPaths(files[i], files[k], t, t');
    }
    if AllLead(t', Without(files, i)) {
      forall k | 0 <= k < |files| && k != i ensures !PathBelow(files[i], files[k]) {
        assert Leads(t', Without(files, i)[if k < i then k else k - 1]);
      }
    }
  }

  /** The server's directories are a tree, and every open file's pathname leads to its node. */
  ghost predicate Coherent(s: State) {
    IsTree(s.tree, Dirs(s.kinds)) && AllLead(s.tree, s.files)
  }

  /** The moved file is the only one at or below its place, and does not move into itself. */
  ghost predicate CalmMove(files: seq<File>, i: nat, target: AppendResult)
    requires i < |files|
  {
    target.Appended? && Alone(files, i) && !(files[i].stack <= target.place.stack)
  }

  lemma OpenStaysCoherent(s: State, s': State)
    requires Grows(s.tree, s.kinds, s'.tree, s'.kinds) && Coherent(s)
    requires || s'.files == s.files
             || (|s'.files| == |s.files| + 1 && s'.files[..|s.files|] == s.files && Leads(s'.tree, s'.files[|s.files|]))
    ensures Coherent(s')
  {
    OpenKeepsPaths(s.files, s.tree, s'.tree);
    if s'.files != s.files {
      LeadAppend(s'.tree, s.files, s'.files);
    }
  }

  lemma CloseStaysCoherent(s: State, s': State, i: nat)
    requires i < |s.files| && Coherent(s) && s'.kinds == s.kinds && s'.files == Without(s.files, i) && s'.tree == s.tree
    ensures Coherent(s')
  {
    LeadWithout(s.tree, s.files, i);
  }

  lemma DeleteExactly(s: State, s': State, i: nat)
    requires i < |s.files| && Coherent(s) && s'.kinds == s.kinds && s'.files == Without(s.files, i)
    requires s'.tree == s.tree || Removed(s.tree, s'.tree, s.files[i].stack)
    ensures Coherent(s') <==> s'.tree == s.tree || Alone(s.files, i)
  {
    if s'.tree == s.tree {
      CloseStaysCoherent(s, s', i);
    } else {
      TreeHasOnePath(s.tree, Dirs(s.kinds));
      DeleteKeepsOthers(s.files, i, s.tree, s'.tree);
      FewerEntries(s.tree, s'.tree, Dirs(s.kinds));
    }
  }

  lemma RenameExactly(s: State, s': State, i: nat, dst: seq<Component>)
    requires i < |s.files| && s'.kinds == s.kinds && Renamed(s.files, s'.files, s.tree, s'.tree, s.kinds, i, dst)
    requires Coherent(s)
    ensures s'.tree != s.tree
    ensures Coherent(s') <==> Alone(s.files, i) && !(s.files[i].stack <= dst)
  {
    var src := s.files[i].stack;
    TreeHasOnePath(s.tree, Dirs(s.kinds));
    assert (Resolve(s.tree, Parent(src)).value, Last(src)) !in s'.tree;
    if src <= dst {
      MovedIntoItself(s.tree, src, dst);
      assert !Leads(s'.tree, s'.files[i]);
    } else {
      RenameKeepsPaths(s.files, i, s.tree, s'.tree, dst);
      MoveKeepsTree(s.tree, Dirs(s.kinds), src, dst);
    }
  }

  const NAME_A: Component := [0x61]
  const NAME_B: Component := [0x62]
  const TWO_HANDLES := [File([NAME_A], 2, 10, false, true), File([NAME_A], 2, 11, false, true)]

  lemma OneFileTree()
    ensures OnePathPerDirectory(map[(ROOT_NODE, NAME_A) := 2])
  {
    var t: Tree := map[(ROOT_NODE, NAME_A) := 2];
    forall p | p != [] ensures !At(t, p, ROOT_NODE) {
    }
  }

  /**
    Two handles on one regular file, both open for writing: renaming through one of them is not
    refused by any check of Rename(), and leaves the other with a pathname that leads nowhere.
  */
  lemma RenameUnderSecondHandle()
    ensures var t: Tree := map[(ROOT_NODE, NAME_A) := 2];
            var t': Tree := map[(ROOT_NODE, NAME_B) := 2];
            var f := TWO_HANDLES[0];
            && OnePathPerDirectory(t) && AllOk(TWO_HANDLES) && AllLead(t, TWO_HANDLES) && !Alone(TWO_HANDLES, 0)
            && RenameTarget(f, NAME_B) == Appended(Place([NAME_B], false))
            && !f.isDirectory && f.isOpenForWriting
            && Moved(t, t', f.stack, [NAME_B])
            && !AllLead(t', TWO_HANDLES[0 := f.(stack := [NAME_B])])
  {
    var t: Tree := map[(ROOT_NODE, NAME_A) := 2];
    var t': Tree := map[(ROOT_NODE, NAME_B) := 2];
    OneFileTree();
    SmallPaths();
    DestinationOfComponent([], NAME_B);
    assert [] + [NAME_B] == [NAME_B];
    assert PathBelow(TWO_HANDLES[0], TWO_HANDLES[1]);
    assert t - {(ROOT_NODE, NAME_A)} == map[];
    assert MoveEntry(t, [NAME_A], [NAME_B]) == t';
    var after := TWO_HANDLES[0 := TWO_HANDLES[0].(stack := [NAME_B])];
    assert after[1] == TWO_HANDLES[1] && !Leads(t', after[1]);
  }

  lemma SmallPaths()
    ensures ValidPath([NAME_A]) && ValidPath([NAME_B])
    ensures Parent([NAME_A]) == [] && Parent([NAME_B]) == []
  {
    assert Render([NAME_A]) == Dir([]) + NAME_A && Render([NAME_B]) == Dir([]) + NAME_B;
  }

  /** Whatever Open() creates, the files that are open keep their pathnames. */
  lemma OpenKeepsPaths(files: seq<File>, t: Tree, t': Tree)
    requires AllLead(t, files) && Extends(t, t')
    ensures AllLead(t', files)
  {
    forall j | 0 <= j < |files| ensures Leads(t', files[j]) {
      assert Leads(t, files[j]);
      ExtendsKeeps(t, t', files[j].stack);
    }
  }

  /** `other` is the same as `f`, or lies below it. */
  predicate PathBelow(f: File, other: File) {
    f.stack <= other.stack
  }

  /** No other file is open at or below file i. */
  ghost predicate Alone(files: seq<File>, i: nat)
    requires i < |files|
  {
    NoneBelow(files, i, |files|)
  }

  /** The server has removed an existing entry. */
  predicate Removed(t: Tree, t': Tree, path: seq<Component>) {
    path != [] && Resolve(t, path).Some? && t' == RemoveEntry(t, path)
  }

  /** What the server, unless it refuses, opens: the driver asks for the node's type and access mode first. */
  predicate NodeOpens(kinds: map<nat, Kind>, node: nat, openForWriting: bool) {
    node in kinds && !(openForWriting && kinds[node].isReadOnly)
  }

  predicate RootOpens(kinds: map<nat, Kind>, openForWriting: bool) {
    openForWriting ==> NodeOpens(kinds, ROOT_NODE, true)
  }

  predicate EntryOpens(t: Tree, kinds: map<nat, Kind>, dir: nat, name: Component, request: Request) {
    if (dir, name) in t then NodeOpens(kinds, t[(dir, name)], request.openForWriting) else request.permitCreation
  }

  predicate CanOpen(t: Tree, kinds: map<nat, Kind>, path: seq<Component>, request: Request) {
    if path == [] then RootOpens(kinds, request.openForWriting)
    else
      var dir := Descend(t, kinds, Parent(path));
      dir.Some? && EntryOpens(t, kinds, dir.value, Last(path), request)
  }

  /** There is an entry of that name, and it is a directory or not, as asked for. */
  predicate IsEntry(t: Tree, kinds: map<nat, Kind>, dir: nat, name: Component, isDirectory: bool) {
    (dir, name) in t && (Subdirectory(t, kinds, dir, name).Some? <==> isDirectory)
  }

  /** There is an entry to remove, in a directory that the driver's lookups get to. */
  predicate CanRemove(t: Tree, kinds: map<nat, Kind>, path: seq<Component>, isDirectory: bool) {
    path != [] &&
    var dir := Descend(t, kinds, Parent(path));
    dir.Some? && IsEntry(t, kinds, dir.value, Last(path), isDirectory)
  }

  /** There is an entry to move, and its new place is free, in directories that the driver's lookups get to. */
  predicate CanRename(t: Tree, kinds: map<nat, Kind>, src: seq<Component>, dst: seq<Component>) {
    src != [] && dst != [] &&
    var from, dir := Descend(t, kinds, Parent(src)), Descend(t, kinds, Parent(dst));
    from.Some? && (from.value, Last(src)) in t && dir.Some? && (dir.value, Last(dst)) !in t
  }

  ghost predicate MayRename(files: seq<File>, i: nat, t: Tree, kinds: map<nat, Kind>, dst: seq<Component>)
    requires i < |files|
  {
    && dst != files[i].stack
    && files[i].isOpenForWriting && (files[i].isDirectory ==> Alone(files, i))
    && CanRename(t, kinds, files[i].stack, dst)
  }

  /** What a deletion comes to: the file must be open for writing, and everything else is a warning that changes nothing. */
  predicate Deleted(status: Status, f: File, t: Tree, t': Tree) {
    || (status == Success && f.isOpenForWriting && Removed(t, t', f.stack))
    || (status == WarnDeleteFailure && t' == t)
  }

  /** The server has moved an existing entry to a place that was free. */
  predicate Moved(t: Tree, t': Tree, src: seq<Component>, dst: seq<Component>) {
    && src != [] && Resolve(t, src).Some?
    && dst != [] && Resolve(t, Parent(dst)).Some? && Resolve(t, dst) == None
    && t' == MoveEntry(t, src, dst)
  }

  /** What holds after a successful move of file i. */
  ghost predicate Renamed(files: seq<File>, files': seq<File>, t: Tree, t': Tree, kinds: map<nat, Kind>, i: nat, dst: seq<Component>)
    requires i < |files|
  {
    var f := files[i];
    && f.isOpenForWriting
    && files' == files[i := f.(stack := dst)]
    && Moved(t, t', f.stack, dst)
    && Resolve(t, Parent(dst)).value in Dirs(kinds)
    && (f.isDirectory ==> Alone(files, i))
  }

  /** The destination of a rename, or the reason to refuse it; the root's own name is the empty one. */
  function RenameTarget(f: File, newFileName: seq<Char16>): AppendResult {
    if f.stack == [] then
      if newFileName == [] then Appended(ROOT) else Refused(AccessDenied)
    else
      var r := RenameSpec(f.stack, newFileName);
      if r.Appended? && r.place.escaped then Refused(NotFound) else r
  }

  // ----- what Open() is asked for -----

  const MODE_READ: bv64 := 1
  const MODE_WRITE: bv64 := 2
  const MODE_CREATE: bv64 := 0x8000_0000_0000_0000

  /** What the caller's mode and attributes amount to. */
  datatype Request = Request(openForWriting: bool, permitCreation: bool, createDirectory: bool)

  /** Reading is always asked for, creation only with writing, and what is created must be writable. */
  predicate ValidRequest(openMode: bv64, attributes: bv64) {
    && openMode & MODE_READ != 0 && openMode & !(MODE_READ | MODE_WRITE | MODE_CREATE) == 0
    && (openMode & MODE_CREATE != 0 ==>
          openMode & MODE_WRITE != 0 && attributes & !FILE_VALID_ATTR == 0 && attributes & FILE_READ_ONLY == 0)
  }

  function RequestOf(openMode: bv64, attributes: bv64): Request {
    Request(openMode & MODE_WRITE != 0, openMode & MODE_CREATE != 0, attributes & FILE_DIRECTORY != 0)
  }

  /** The tests on mode and attributes at the start of VirtioFsSimpleFileOpen(). */
  method CheckRequest(openMode: bv64, attributes: bv64) returns (request: Option<Request>)
    ensures request.Some? <==> ValidRequest(openMode, attributes)
    ensures request.Some? ==>
              && request.value.openForWriting == (openMode & MODE_WRITE != 0)
              && request.value.permitCreation == (openMode & MODE_CREATE != 0)
              && (request.value.permitCreation ==> request.value.createDirectory == (attributes & FILE_DIRECTORY != 0))
  {
    var openForWriting, permitCreation := false, false;
    ModesExactly(openMode);
    if openMode == MODE_READ | MODE_WRITE {
      openForWriting := true;
    } else if openMode == MODE_READ | MODE_WRITE | MODE_CREATE {
      openForWriting, permitCreation := true, true;
    } else if openMode != MODE_READ {
      return None;
    }
    var createDirectoryIfCreating := false;
    if permitCreation {
      if attributes & !FILE_VALID_ATTR != 0 {
        return None;
      }
      if attributes & FILE_READ_ONLY != 0 {
        return None;
      }
      createDirectoryIfCreating := attributes & FILE_DIRECTORY != 0;
    }
    return Some(Request(openForWriting, permitCreation, createDirectoryIfCreating));
  }

  /** The three modes of the switch are those with these bits. */
  lemma ModesExactly(openMode: bv64)
    ensures openMode == MODE_READ || openMode == MODE_READ | MODE_WRITE || openMode == MODE_READ | MODE_WRITE | MODE_CREATE <==>
            && openMode & MODE_READ != 0 && openMode & !(MODE_READ | MODE_WRITE | MODE_CREATE) == 0
            && (openMode & MODE_CREATE != 0 ==> openMode & MODE_WRITE != 0)
    ensures openMode == MODE_READ ==> openMode & MODE_WRITE == 0 && openMode & MODE_CREATE == 0
    ensures openMode == MODE_READ | MODE_WRITE ==> openMode & MODE_WRITE != 0 && openMode & MODE_CREATE == 0
    ensures openMode == MODE_READ | MODE_WRITE | MODE_CREATE ==> openMode & MODE_WRITE != 0 && openMode & MODE_CREATE != 0
  {
  }

  /** The place that a file name relative to an open file denotes, or the reason to refuse it. */
  function OpenTarget(f: File, fileName: seq<Char16>, openMode: bv64, attributes: bv64): AppendResult {
    if !ValidRequest(openMode, attributes) then Refused(InvalidParameter)
    else if !f.isDirectory && !IsAbsolute(fileName) then Refused(InvalidParameter)
    else
      var r := AppendSpec(f.stack, fileName);
      if r.Appended? && r.place.escaped then Refused(AccessDenied) else r
  }
}
