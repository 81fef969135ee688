/**
  Appending UEFI pathnames to canonical ones, basenames, rename destinations and
  the driver's test for "this open file lies below that directory".
*/
module PathAppend {
  import opened Efi
  import opened PathCanon

  // ----- specification -----

  /** The characters of a UEFI pathname that the driver accepts. */
  predicate Accepted(rhs: seq<Char16>) {
    forall i :: 0 <= i < |rhs| ==> 0x20 <= rhs[i] <= 0x7E && rhs[i] != SLASH
  }

  function Posix(rhs: seq<Char16>): (r: seq<Char8>)
    requires Accepted(rhs)
    ensures |r| == |rhs|
  {
    seq(|rhs|, i requires 0 <= i < |rhs| => if rhs[i] == BACKSLASH then SLASH else rhs[i])
  }

  /** The UEFI spelling of a canonical pathname. */
  function Uefi(path: seq<Char8>): (r: seq<Char16>)
    ensures |r| == |path|
  {
    seq(|path|, i requires 0 <= i < |path| => if path[i] == SLASH then BACKSLASH else path[i])
  }

  predicate IsAbsolute(rhs: seq<Char16>) {
    rhs != [] && rhs[0] == BACKSLASH
  }

  datatype AppendResult = Appended(place: Place) | Refused(status: Status)

  /** Where `rhs` leads from the directory `base`, by components. */
  function Destination(base: seq<Component>, rhs: seq<Char16>): Place
    requires Accepted(rhs)
  {
    Walk(Place(if IsAbsolute(rhs) then [] else base, false), Split(Posix(rhs)))
  }

  function AppendSpec(base: seq<Component>, rhs: seq<Char16>): AppendResult {
    if rhs == [] || |rhs| > MAX_PATHNAME_LENGTH then Refused(InvalidParameter)
    else if !Accepted(rhs) then Refused(Unsupported)
    else if |Render(Destination(base, rhs).stack)| > MAX_PATHNAME_LENGTH then Refused(OutOfResources)
    else Appended(Destination(base, rhs))
  }

  // ----- implementation -----

  /** Reject characters that the driver does not support, turn backslashes into slashes. */
  method Transliterate(rhs: seq<Char16>) returns (rhs8: array<Char8>, ok: bool)
    ensures fresh(rhs8) && rhs8.Length == |rhs| + 1
    ensures ok <==> Accepted(rhs)
    ensures ok ==> rhs8[..] == Posix(rhs) + [NUL]
  {
    rhs8 := new Char8[|rhs| + 1];
    var idx := 0;
    while idx < |rhs|
      invariant 0 <= idx <= |rhs|
      invariant Accepted(rhs[..idx])
      invariant rhs8[..idx] == Posix(rhs[..idx])
    {
      if rhs[idx] < 0x20 || rhs[idx] > 0x7E || rhs[idx] == SLASH {
        return rhs8, false;
      }
      rhs8[idx] := if rhs[idx] == BACKSLASH then SLASH else rhs[idx];
      assert rhs8[..idx + 1] == rhs8[..idx] + [rhs8[idx]];
      assert Posix(rhs[..idx + 1]) == Posix(rhs[..idx]) + [rhs8[idx]];
      idx := idx + 1;
    }
    assert rhs[..idx] == rhs;
    rhs8[idx] := NUL;
    assert rhs8[..] == rhs8[..idx] + [NUL];
    ok := true;
  }

  lemma PosixChars(rhs: seq<Char16>)
    requires Accepted(rhs)
    ensures forall i :: 0 <= i < |rhs| ==> Posix(rhs)[i] == SLASH || IsPathChar(Posix(rhs)[i])
    ensures rhs != [] ==> (Posix(rhs)[0] == SLASH <==> IsAbsolute(rhs))
  {
  }

  /** VirtioFsAppendPath(): both C strings come without their terminators. */
  method AppendPath(lhs: seq<Char8>, rhs: seq<Char16>, ghost base: seq<Component>)
    returns (status: Status, result: seq<Char8>, rootEscape: bool)
    requires ValidStack(base) && lhs == Render(base)
    ensures match AppendSpec(base, rhs)
            case Refused(s) => status == s
            case Appended(p) =>
              && status == Success
              && ValidStack(p.stack)
              && result == Render(p.stack)
              && rootEscape == p.escaped
  {
    result, rootEscape := [], false;
    if |rhs| == 0 {
      return InvalidParameter, result, rootEscape;
    }
    if |rhs| > MAX_PATHNAME_LENGTH {
      return InvalidParameter, result, rootEscape;
    }
    var rhs8, ok := Transliterate(rhs);
    if !ok {
      return Unsupported, result, rootEscape;
    }
    assert rhs8[0] == rhs8[..][0];
    var toSanitize := if rhs8[0] == SLASH then rhs8[..] else lhs + [SLASH] + rhs8[..];
    ghost var p := Destination(base, rhs);
    SanitizeInput(base, rhs, toSanitize);
    result, rootEscape := SanitizeString(toSanitize, p);
    if |result| > MAX_PATHNAME_LENGTH {
      return OutOfResources, [], rootEscape;
    }
    return Success, result, rootEscape;
  }

  /** Run the state machine and drop the terminator from its output. */
  method SanitizeString(input: seq<Char8>, ghost p: Place) returns (path: seq<Char8>, rootEscape: bool)
    requires Sanitizable(input)
    requires p == Walk(ROOT, Split(input[1..|input| - 1]))
    ensures ValidStack(p.stack) && path == Render(p.stack) && rootEscape == p.escaped
  {
    var buffer, position, escape := Sanitize(input);
    assert position >= 2;
    path := buffer[..position - 1];
    assert path == buffer[..position][..position - 1];
    rootEscape := escape;
  }

  lemma SanitizeInput(base: seq<Component>, rhs: seq<Char16>, input: seq<Char8>)
    requires ValidStack(base) && Accepted(rhs) && rhs != []
    requires var r := Posix(rhs) + [NUL];
             input == if r[0] == SLASH then r else Render(base) + [SLASH] + r
    ensures Sanitizable(input)
    ensures Walk(ROOT, Split(input[1..|input| - 1])) == Destination(base, rhs)
  {
    PosixChars(rhs);
    if IsAbsolute(rhs) {
      AbsoluteInput(base, rhs);
    } else {
      RelativeInput(base, rhs);
      assert input == Render(base) + [SLASH] + Posix(rhs) + [NUL];
    }
  }

  lemma AbsoluteInput(base: seq<Component>, rhs: seq<Char16>)
    requires Accepted(rhs) && IsAbsolute(rhs)
    ensures var input := Posix(rhs) + [NUL];
            && Sanitizable(input)
            && Walk(ROOT, Split(input[1..|input| - 1])) == Destination(base, rhs)
  {
    PosixChars(rhs);
    var input, r := Posix(rhs) + [NUL], Posix(rhs);
    assert input[1..|input| - 1] == r[1..];
    SplitConcat([], r[1..]);
    assert [] + [SLASH] + r[1..] == r;
    WalkSkipsEmpty(ROOT, Split(r[1..]));
  }

  lemma WalkSkipsEmpty(p: Place, cs: seq<Component>)
    ensures Walk(p, [[]] + cs) == Walk(p, cs)
  {
    assert ([[]] + cs)[1..] == cs;
  }

  lemma RelativeInput(base: seq<Component>, rhs: seq<Char16>)
    requires ValidStack(base)
    requires Accepted(rhs) && rhs != [] && !IsAbsolute(rhs)
    ensures var input := Render(base) + [SLASH] + Posix(rhs) + [NUL];
            && Sanitizable(input)
            && Walk(ROOT, Split(input[1..|input| - 1])) == Destination(base, rhs)
  {
    PosixChars(rhs);
    RenderChars(base);
    var lhs, r := Render(base), Posix(rhs);
    var input := lhs + [SLASH] + r + [NUL];
    RelativeBody(lhs, r);
    if base == [] {
      assert lhs[1..] == [];
      SplitConcat([], r);
      WalkSkipsEmpty(ROOT, Split(r));
    } else {
      SplitConcat(lhs[1..], r);
      SplitRender(base);
      WalkConcat(ROOT, base, Split(r));
      WalkPushes(ROOT, base);
      assert [] + base == base;
    }
  }

  lemma RelativeBody(lhs: seq<Char8>, r: seq<Char8>)
    requires lhs != []
    ensures var input := lhs + [SLASH] + r + [NUL];
            input[1..|input| - 1] == lhs[1..] + [SLASH] + r
  {
  }

  // ----- laws of appending -----

  /** Appending to a canonical pathname gives a canonical pathname within the length limit. */
  lemma AppendIsCanonical(base: seq<Component>, rhs: seq<Char16>)
    requires ValidStack(base) && AppendSpec(base, rhs).Appended?
    ensures ValidStack(AppendSpec(base, rhs).place.stack)
    ensures |Render(AppendSpec(base, rhs).place.stack)| <= MAX_PATHNAME_LENGTH
  {
    PosixChars(rhs);
    SplitChars(Posix(rhs));
    WalkKeepsValid(Place(if IsAbsolute(rhs) then [] else base, false), Split(Posix(rhs)));
  }

  lemma {:induction false} SplitChars(s: seq<Char8>)
    requires forall i :: 0 <= i < |s| ==> s[i] == SLASH || IsPathChar(s[i])
    ensures forall i, j :: 0 <= i < |Split(s)| && 0 <= j < |Split(s)[i]| ==> IsPathChar(Split(s)[i][j])
  {
    if s != [] {
      SplitChars(s[1..]);
    }
  }

  /** RootEscape is set exactly when some dot-dot is met with nothing left to leave. */
  lemma {:induction false} EscapeExact(p: Place, cs: seq<Component>)
    ensures Walk(p, cs).escaped <==>
              || p.escaped
              || exists k :: 0 <= k < |cs| && cs[k] == [DOT, DOT] && Walk(p, cs[..k]).stack == []
    decreases |cs|
  {
    if cs != [] {
      var q, rest := Enter(p, cs[0]), cs[1..];
      EscapeExact(q, rest);
      assert Walk(p, cs[..0]) == p;
      forall k | 0 <= k < |rest| ensures Walk(q, rest[..k]) == Walk(p, cs[..k + 1]) {
        assert cs[..k + 1][1..] == rest[..k];
      }
      if exists k :: 0 <= k < |cs| && cs[k] == [DOT, DOT] && Walk(p, cs[..k]).stack == [] {
        var k :| 0 <= k < |cs| && cs[k] == [DOT, DOT] && Walk(p, cs[..k]).stack == [];
        assert k > 0 ==> rest[k - 1] == [DOT, DOT] && Walk(q, rest[..k - 1]).stack == [];
      }
      if exists k :: 0 <= k < |rest| && rest[k] == [DOT, DOT] && Walk(q, rest[..k]).stack == [] {
        var k :| 0 <= k < |rest| && rest[k] == [DOT, DOT] && Walk(q, rest[..k]).stack == [];
        assert cs[k + 1] == [DOT, DOT] && Walk(p, cs[..k + 1]).stack == [];
      }
    }
  }

  /** The result holds the names of base and pathname that no later dot-dot takes; an escape is a dot-dot that finds none. */
  lemma AppendIsSurviving(base: seq<Component>, rhs: seq<Char16>)
    requires ValidStack(base) && AppendSpec(base, rhs).Appended?
    ensures var cs := (if IsAbsolute(rhs) then [] else base) + Split(Posix(rhs));
            AppendSpec(base, rhs).place == Place(Surviving(cs, 0), Unmatched(cs, 0) > 0)
  {
    var start := if IsAbsolute(rhs) then [] else base;
    WalkPushes(ROOT, start);
    assert [] + start == start;
    WalkConcat(ROOT, start, Split(Posix(rhs)));
    WalkIsSurviving(start + Split(Posix(rhs)));
  }

  /** From any directory, a name leads into it, a dot-dot to its parent, and out of the root nowhere. */
  lemma AppendOne(base: seq<Component>, c: Component)
    requires ValidStack(base) && ValidComponent(c)
    ensures |Render(base + [c])| <= MAX_PATHNAME_LENGTH ==> AppendSpec(base, c) == Appended(Place(base + [c], false))
    ensures base != [] && |Render(Parent(base))| <= MAX_PATHNAME_LENGTH ==>
              AppendSpec(base, [DOT, DOT]) == Appended(Place(Parent(base), false))
    ensures AppendSpec([], [DOT, DOT]) == Appended(Place([], true))
  {
    DestinationOfComponent(base, c);
    DestinationOfDotDot(base);
    DestinationOfDotDot([]);
  }

  lemma DestinationOfDotDot(base: seq<Component>)
    ensures var rhs: seq<Char16> := [DOT, DOT];
            Accepted(rhs) && Destination(base, rhs) == if base == [] then Place([], true) else Place(Parent(base), false)
  {
    var rhs: seq<Char16> := [DOT, DOT];
    assert Posix(rhs) == [DOT, DOT];
    SplitSingle([DOT, DOT]);
    var p := Place(base, false);
    assert Walk(p, [[DOT, DOT]]) == Enter(p, [DOT, DOT]);
  }

  /** A dot-dot takes back the component before it. */
  lemma DotDotTakesBack(base: seq<Component>, r: seq<Char16>, c: Component)
    requires AppendSpec(base, r).Appended? && ValidComponent(c)
    requires |r| + |c| + 4 <= MAX_PATHNAME_LENGTH
    ensures AppendSpec(base, r + [BACKSLASH] + c + [BACKSLASH, DOT, DOT]) == AppendSpec(base, r)
  {
    var up: seq<Char16> := [DOT, DOT];
    var d := Destination(base, r);
    DestinationOfComponent(d.stack, c);
    DestinationComposes(base, r, c);
    DestinationOfDotDot(d.stack + [c]);
    DestinationComposes(base, r + [BACKSLASH] + c, up);
    assert r + [BACKSLASH] + c + [BACKSLASH, DOT, DOT] == r + [BACKSLASH] + c + [BACKSLASH] + up;
  }

  /** A dot at the end, or a backslash alone, changes nothing. */
  lemma DotStays(base: seq<Component>, r: seq<Char16>)
    requires AppendSpec(base, r).Appended? && |r| + 2 <= MAX_PATHNAME_LENGTH
    ensures AppendSpec(base, r + [BACKSLASH, DOT]) == AppendSpec(base, r)
    ensures AppendSpec(base, r + [BACKSLASH]) == AppendSpec(base, r)
  {
    StaysWith(base, r, [DOT]);
    StaysWith(base, r, []);
    assert r + [BACKSLASH, DOT] == r + [BACKSLASH] + [DOT] && r + [BACKSLASH] == r + [BACKSLASH] + [];
  }

  lemma StaysWith(base: seq<Component>, r: seq<Char16>, c: seq<Char16>)
    requires Accepted(r) && r != [] && (c == [] || c == [DOT])
    ensures Accepted(r + [BACKSLASH] + c) && Destination(base, r + [BACKSLASH] + c) == Destination(base, r)
  {
    DestinationComposes(base, r, c);
    var s := Destination(base, r).stack;
    assert Posix(c) == c;
    SplitSingle(c);
    var p := Place(s, false);
    assert Walk(p, [c]) == Enter(p, c);
  }

  /** Appending one pathname after the other is appending both, joined by a backslash. */
  lemma AppendComposes(base: seq<Component>, r1: seq<Char16>, r2: seq<Char16>)
    requires AppendSpec(base, r1).Appended?
    requires !IsAbsolute(r2)
    requires AppendSpec(AppendSpec(base, r1).place.stack, r2).Appended?
    requires |r1| + 1 + |r2| <= MAX_PATHNAME_LENGTH
    ensures var p1 := AppendSpec(base, r1).place;
            var p2 := AppendSpec(p1.stack, r2).place;
            AppendSpec(base, r1 + [BACKSLASH] + r2) == Appended(Place(p2.stack, p1.escaped || p2.escaped))
  {
    DestinationComposes(base, r1, r2);
  }

  lemma DestinationComposes(base: seq<Component>, r1: seq<Char16>, r2: seq<Char16>)
    requires Accepted(r1) && Accepted(r2) && r1 != [] && !IsAbsolute(r2)
    ensures var r := r1 + [BACKSLASH] + r2;
            var p1 := Destination(base, r1);
            var p2 := Destination(p1.stack, r2);
            && Accepted(r)
            && Destination(base, r) == Place(p2.stack, p1.escaped || p2.escaped)
  {
    PosixConcat(r1, r2);
    SplitConcat(Posix(r1), Posix(r2));
    WalkConcat(Place(if IsAbsolute(r1) then [] else base, false), Split(Posix(r1)), Split(Posix(r2)));
    WalkEscape(Destination(base, r1), Split(Posix(r2)));
  }

  lemma PosixConcat(r1: seq<Char16>, r2: seq<Char16>)
    requires Accepted(r1) && Accepted(r2)
    ensures Accepted(r1 + [BACKSLASH] + r2)
    ensures Posix(r1 + [BACKSLASH] + r2) == Posix(r1) + [SLASH] + Posix(r2)
  {
  }

  /** A result, spelled as an absolute UEFI pathname, leads to itself from anywhere. */
  lemma AppendIsIdempotent(base: seq<Component>, stack: seq<Component>)
    requires ValidStack(stack) && |Render(stack)| <= MAX_PATHNAME_LENGTH
    ensures AppendSpec(base, Uefi(Render(stack))) == Appended(Place(stack, false))
  {
    RenderChars(stack);
    UefiIsPosix(Render(stack));
    WalkWhole(stack);
  }

  lemma UefiIsPosix(path: seq<Char8>)
    requires forall i :: 0 <= i < |path| ==> path[i] == SLASH || IsPathChar(path[i])
    ensures Accepted(Uefi(path)) && Posix(Uefi(path)) == path
    ensures path != [] && path[0] == SLASH ==> IsAbsolute(Uefi(path))
  {
  }

  lemma WalkWhole(stack: seq<Component>)
    requires ValidStack(stack)
    ensures Walk(ROOT, Split(Render(stack))) == Place(stack, false)
  {
    var path := Render(stack);
    assert path == [] + [SLASH] + path[1..];
    SplitConcat([], path[1..]);
    WalkSkipsEmpty(ROOT, Split(path[1..]));
    if stack == [] {
      WalkSkipsEmpty(ROOT, []);
      var none: seq<Component> := [[]];
      assert none + [] == none;
    } else {
      SplitRender(stack);
      WalkPushes(ROOT, stack);
      assert [] + stack == stack;
    }
  }

  // ----- basenames -----

  function Basename(stack: seq<Component>): Component {
    if stack == [] then [] else Last(stack)
  }

  function BasenameSize(stack: seq<Component>): nat {
    2 * (|Basename(stack)| + 1)
  }

  /** The last slash of a pathname that starts with one. */
  method FindLastSlash(path: seq<Char8>) returns (last: nat)
    requires path != [] && path[0] == SLASH
    ensures last < |path| && path[last] == SLASH
    ensures forall i :: last < i < |path| ==> path[i] != SLASH
  {
    var lastComponent: int := -1;
    var idx := 0;
    while idx < |path|
      invariant 0 <= idx <= |path| && -1 <= lastComponent < idx
      invariant lastComponent >= 0 ==> path[lastComponent] == SLASH
      invariant forall i :: lastComponent < i < idx ==> path[i] != SLASH
    {
      if path[idx] == SLASH {
        lastComponent := idx;
      }
      idx := idx + 1;
    }
    assert lastComponent >= 0;
    last := lastComponent;
  }

  /**
    VirtioFsGetBasename(): `basename` is the caller's CHAR16 array without the
    terminator, `size'` the number of bytes required including it.
  */
  method GetBasename(path: seq<Char8>, size: nat, ghost stack: seq<Component>)
    returns (status: Status, basename: seq<Char16>, size': nat)
    requires ValidStack(stack) && path == Render(stack)
    ensures size' == BasenameSize(stack)
    ensures status == if size' > size then BufferTooSmall else Success
    ensures status == Success ==> basename == Basename(stack)
  {
    var last := FindLastSlash(path);
    LastSlash(stack, last);
    last := last + 1;
    size' := (|path| + 1 - last) * 2;
    if size' > size {
      return BufferTooSmall, [], size';
    }
    return Success, path[last..], size';
  }

  lemma LastSlash(stack: seq<Component>, k: nat)
    requires ValidStack(stack)
    requires k < |Render(stack)| && Render(stack)[k] == SLASH
    requires forall i :: k < i < |Render(stack)| ==> Render(stack)[i] != SLASH
    ensures Render(stack)[k + 1..] == Basename(stack)
  {
    if stack != [] {
      var d, c := Dir(Parent(stack)), Last(stack);
      ValidHasNoSlash(c);
      assert Render(stack)[|d| - 1] == SLASH;
      assert forall i :: |d| <= i < |d| + |c| ==> Render(stack)[i] == c[i - |d|];
      assert k == |d| - 1;
    }
  }

  // ----- rename destinations -----

  /** The "move into directory" form ends in a backslash and keeps the basename. */
  function RenameSuffix(stack: seq<Component>, rhs: seq<Char16>): seq<Char16>
    requires stack != [] && rhs != []
  {
    if rhs[|rhs| - 1] == BACKSLASH then rhs + Last(stack) else rhs
  }

  function RenameSpec(stack: seq<Component>, rhs: seq<Char16>): AppendResult {
    if rhs == [] || |rhs| > MAX_PATHNAME_LENGTH || stack == [] then Refused(InvalidParameter)
    else AppendSpec(Parent(stack), RenameSuffix(stack, rhs))
  }

  /** VirtioFsComposeRenameDestination(). */
  method ComposeRenameDestination(lhs: seq<Char8>, rhs: seq<Char16>, ghost stack: seq<Component>)
    returns (status: Status, result: seq<Char8>, rootEscape: bool)
    requires ValidStack(stack) && lhs == Render(stack)
    ensures match RenameSpec(stack, rhs)
            case Refused(s) => status == s
            case Appended(p) =>
              && status == Success
              && ValidStack(p.stack)
              && result == Render(p.stack)
              && rootEscape == p.escaped
  {
    if |rhs| == 0 || |rhs| > MAX_PATHNAME_LENGTH {
      return InvalidParameter, [], false;
    }
    var _, _, size := GetBasename(lhs, 0, stack);
    var basenameLen := size / 2 - 1;
    assert stack != [] ==> ValidComponent(Last(stack));
    if basenameLen == 0 {
      return InvalidParameter, [], false;
    }
    var suffix := rhs;
    if rhs[|rhs| - 1] == BACKSLASH {
      var s, basename, _ := GetBasename(lhs, size, stack);
      assert s == Success;
      suffix := rhs + basename;
    }
    if suffix[0] == BACKSLASH {
      DestinationIgnoresBase(Parent(stack), [], suffix);
      status, result, rootEscape := AppendPath([SLASH], suffix, []);
    } else {
      ParentPrefix(stack);
      assert basenameLen < |lhs|;
      var prefixLen := |lhs| - basenameLen;
      assert lhs[prefixLen - 1] == SLASH;
      if prefixLen > 1 {
        prefixLen := prefixLen - 1;
      }
      status, result, rootEscape := AppendPath(lhs[..prefixLen], suffix, Parent(stack));
    }
  }

  /** Stripping the basename, and the slash unless it is the root's, leaves the parent. */
  lemma ParentPrefix(stack: seq<Component>)
    requires ValidStack(stack) && stack != []
    ensures var path := Render(stack);
            var k := |path| - |Last(stack)|;
            && 1 <= k
            && path[k - 1] == SLASH
            && path[..if k > 1 then k - 1 else k] == Render(Parent(stack))
  {
    var up, path := Parent(stack), Render(stack);
    var k := |path| - |Last(stack)|;
    assert path[..k] == Dir(up);
    assert path[k - 1] == path[..k][k - 1];
    if up != [] {
      RenderLongerThanRoot(up);
      DirIsRender(up);
      assert path[..k - 1] == Dir(up)[..k - 1];
    }
  }

  lemma DestinationIgnoresBase(a: seq<Component>, b: seq<Component>, rhs: seq<Char16>)
    requires IsAbsolute(rhs)
    ensures AppendSpec(a, rhs) == AppendSpec(b, rhs)
  {
  }

  lemma DestinationOfComponent(base: seq<Component>, c: Component)
    requires ValidComponent(c)
    ensures Accepted(c) && !IsAbsolute(c)
    ensures Destination(base, c) == Place(base + [c], false)
  {
    ValidHasNoSlash(c);
    var rhs: seq<Char16> := c;
    assert Posix(rhs) == c;
    SplitSingle(c);
    var p := Place(base, false);
    assert Walk(p, [c]) == Walk(Enter(p, c), [c][1..]) == Enter(p, c);
  }

  /** Renaming a file to its own basename is no rename at all. */
  lemma RenameToBasename(stack: seq<Component>)
    requires ValidStack(stack) && stack != [] && |Render(stack)| <= MAX_PATHNAME_LENGTH
    ensures RenameSpec(stack, Basename(stack)) == Appended(Place(stack, false))
  {
    var c := Last(stack);
    assert ValidComponent(c);
    ValidHasNoSlash(c);
    DestinationOfComponent(Parent(stack), c);
    assert Parent(stack) + [c] == stack;
  }

  /** Moving into a directory keeps the basename, whatever the directory is. */
  lemma MoveIntoDirectory(stack: seq<Component>, dir: seq<Char16>)
    requires ValidStack(stack) && stack != [] && dir != []
    requires RenameSpec(stack, dir + [BACKSLASH]).Appended?
    ensures Accepted(dir)
    ensures var p := RenameSpec(stack, dir + [BACKSLASH]).place;
            var d := Destination(Parent(stack), dir);
            p == Place(d.stack + [Last(stack)], d.escaped)
  {
    var c := Last(stack);
    assert ValidComponent(c);
    ValidHasNoSlash(c);
    var rhs := dir + [BACKSLASH];
    var suffix := RenameSuffix(stack, rhs);
    assert suffix == dir + [BACKSLASH] + c;
    forall i | 0 <= i < |dir| ensures 0x20 <= dir[i] <= 0x7E && dir[i] != SLASH {
      assert suffix[i] == dir[i];
    }
    assert Posix(suffix) == Posix(dir) + [SLASH] + c;
    SplitConcat(Posix(dir), c);
    SplitSingle(c);
    var start := Place(if IsAbsolute(dir) then [] else Parent(stack), false);
    WalkConcat(start, Split(Posix(dir)), [c]);
    var d := Destination(Parent(stack), dir);
    assert Walk(d, [c]) == Enter(d, c);
  }

  // ----- the "lies below" test of Rename() -----

  /** AsciiStrnCmp() == 0 for two NUL-free strings. */
  predicate StrnEqual(a: seq<Char8>, b: seq<Char8>, n: nat) {
    if n == 0 || (a == [] && b == []) then true
    else a != [] && b != [] && a[0] == b[0] && StrnEqual(a[1..], b[1..], n - 1)
  }

  lemma {:induction false} StrnEqualIsPrefix(a: seq<Char8>, b: seq<Char8>)
    ensures StrnEqual(a, b, |a|) <==> a <= b
    decreases |a|
  {
    if a != [] && b != [] {
      StrnEqualIsPrefix(a[1..], b[1..]);
      assert a == [a[0]] + a[1..] && b == [b[0]] + b[1..];
    }
  }

  /** The driver's string test: same characters up to the end of `dir`, then a boundary. */
  predicate LiesBelow(dir: seq<Char8>, other: seq<Char8>) {
    && StrnEqual(dir, other, |dir|)
    && (|other| == |dir| || (|other| > |dir| && other[|dir|] == SLASH))
  }

  /** The string test decides the component question, for every pair of canonical pathnames. */
  lemma LiesBelowExact(a: seq<Component>, b: seq<Component>)
    requires ValidStack(a) && ValidStack(b) && a != []
    ensures LiesBelow(Render(a), Render(b)) <==> a <= b
  {
    StrnEqualIsPrefix(Render(a), Render(b));
    if a <= b {
      RenderExtends(a, b);
    }
    if LiesBelow(Render(a), Render(b)) {
      if |Render(b)| == |Render(a)| {
        RenderInjective(a, b);
      } else {
        BoundaryMeansPrefix(a, b);
      }
    }
  }

  lemma BoundaryMeansPrefix(a: seq<Component>, b: seq<Component>)
    requires ValidStack(a) && ValidStack(b) && a != []
    requires Render(a) + [SLASH] <= Render(b)
    ensures a <= b
  {
    RenderLongerThanRoot(a);
    SplitRender(a);
    SplitRender(b);
    var t := SplitOfExtension(Render(a), Render(b));
    assert b == a + t;
  }

  lemma SplitOfExtension(dir: seq<Char8>, other: seq<Char8>) returns (t: seq<Component>)
    requires dir != [] && dir + [SLASH] <= other
    ensures Split(other[1..]) == Split(dir[1..]) + t
  {
    var rest := other[|dir| + 1..];
    assert other[1..] == dir[1..] + [SLASH] + rest;
    SplitConcat(dir[1..], rest);
    t := Split(rest);
  }

  lemma {:induction false} RenderExtends(a: seq<Component>, b: seq<Component>)
    requires ValidStack(a) && ValidStack(b) && a != [] && a <= b
    ensures Render(a) <= Render(b)
    ensures |Render(b)| == |Render(a)| || Render(b)[|Render(a)|] == SLASH
    decreases |b|
  {
    if a != b {
      assert a <= Parent(b);
      RenderExtends(a, Parent(b));
      DirIsRender(Parent(b));
      assert Render(b) == Render(Parent(b)) + [SLASH] + Last(b);
    }
  }
}
