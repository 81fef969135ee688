/**
  The pathname canonicaliser of the Virtio Filesystem driver.

  The specification is a component stack: the concatenated pathname is split on
  slashes and each component is applied to the stack. The implementation is the
  driver's state machine, which never looks at components: it copies characters
  into an output buffer and moves the write position back over what it has to
  drop.
*/
module PathCanon {
  import opened Efi

  const MAX_PATHNAME_LENGTH := 65535

  type Component = seq<Char8>

  // ----- canonical pathnames -----

  /** What a canonical pathname may contain between slashes. */
  predicate IsPathChar(c: Char8) {
    0x20 <= c <= 0x7E && c != SLASH && c != BACKSLASH
  }

  predicate ValidComponent(c: Component) {
    && c != [] && c != [DOT] && c != [DOT, DOT]
    && forall i :: 0 <= i < |c| ==> IsPathChar(c[i])
  }

  predicate ValidStack(stack: seq<Component>) {
    forall i :: 0 <= i < |stack| ==> ValidComponent(stack[i])
  }

  function Parent(stack: seq<Component>): seq<Component>
    requires stack != []
  {
    stack[..|stack| - 1]
  }

  function Last(stack: seq<Component>): Component
    requires stack != []
  {
    stack[|stack| - 1]
  }

  /** The pathname of a directory, with the slash that would precede a child. */
  function Dir(stack: seq<Component>): (r: seq<Char8>)
    ensures r != [] && r[0] == SLASH && r[|r| - 1] == SLASH
  {
    if stack == [] then [SLASH] else Dir(Parent(stack)) + Last(stack) + [SLASH]
  }

  /** The canonical pathname of a component stack: no trailing slash except for the root. */
  function Render(stack: seq<Component>): (r: seq<Char8>)
    ensures r != [] && r[0] == SLASH
  {
    if stack == [] then [SLASH] else Dir(Parent(stack)) + Last(stack)
  }

  // ----- component semantics -----

  /** The parts of `s` between slashes, in order, empty parts included. */
  function Split(s: seq<Char8>): (r: seq<Component>)
    ensures r != []
  {
    if s == [] then [[]] else Glue(s[0], Split(s[1..]))
  }

  /** Put one more character in front of a split text. */
  function Glue(h: Char8, parts: seq<Component>): (r: seq<Component>)
    requires parts != []
    ensures r != []
  {
    if h == SLASH then [[]] + parts else [[h] + parts[0]] + parts[1..]
  }

  datatype Place = Place(stack: seq<Component>, escaped: bool)

  /** Apply one pathname component; a dot-dot at the root is dropped and remembered. */
  function Enter(p: Place, c: Component): Place {
    if c == [] || c == [DOT] then p
    else if c == [DOT, DOT] then
      if p.stack == [] then p.(escaped := true) else p.(stack := Parent(p.stack))
    else p.(stack := p.stack + [c])
  }

  function Walk(p: Place, cs: seq<Component>): Place
    decreases |cs|
  {
    if cs == [] then p else Walk(Enter(p, cs[0]), cs[1..])
  }

  const ROOT := Place([], false)

  // ----- the same, read from the end -----

  predicate IsName(c: Component) {
    c != [] && c != [DOT] && c != [DOT, DOT]
  }

  /**
    The names that stay, found from the last component to the first: `n` dot-dots
    are still looking for a name to take.
  */
  function Surviving(cs: seq<Component>, n: nat): seq<Component> {
    if cs == [] then []
    else
      var front, c := Parent(cs), Last(cs);
      if c == [DOT, DOT] then Surviving(front, n + 1)
      else if !IsName(c) then Surviving(front, n)
      else if n > 0 then Surviving(front, n - 1)
      else Surviving(front, 0) + [c]
  }

  /** How many of the dot-dots find none. */
  function Unmatched(cs: seq<Component>, n: nat): nat {
    if cs == [] then n
    else
      var front, c := Parent(cs), Last(cs);
      if c == [DOT, DOT] then Unmatched(front, n + 1)
      else if !IsName(c) then Unmatched(front, n)
      else Unmatched(front, if n > 0 then n - 1 else 0)
  }

  /** All but the last n elements, if there are that many. */
  function Shorter(s: seq<Component>, n: nat): seq<Component> {
    if n < |s| then s[..|s| - n] else []
  }

  lemma WalkLast(cs: seq<Component>)
    requires cs != []
    ensures Walk(ROOT, cs) == Enter(Walk(ROOT, Parent(cs)), Last(cs))
  {
    assert cs == Parent(cs) + [Last(cs)];
    WalkConcat(ROOT, Parent(cs), [Last(cs)]);
    var p := Walk(ROOT, Parent(cs));
    assert Walk(p, [Last(cs)]) == Enter(p, Last(cs));
  }

  lemma {:induction false} WalkFromTheEnd(cs: seq<Component>, n: nat)
    ensures Surviving(cs, n) == Shorter(Walk(ROOT, cs).stack, n)
    ensures Unmatched(cs, n) > 0 <==> Walk(ROOT, cs).escaped || n > |Walk(ROOT, cs).stack|
    decreases |cs|
  {
    if cs != [] {
      WalkLast(cs);
      var front, c, s := Parent(cs), Last(cs), Walk(ROOT, Parent(cs)).stack;
      if c == [DOT, DOT] {
        WalkFromTheEnd(front, n + 1);
      } else if !IsName(c) {
        WalkFromTheEnd(front, n);
      } else {
        WalkFromTheEnd(front, if n > 0 then n - 1 else 0);
        assert n > 0 ==> Shorter(s + [c], n) == Shorter(s, n - 1);
        assert Shorter(s + [c], 0) == s + [c] && Shorter(s, 0) == s;
      }
    }
  }

  /** A walk keeps the names that no later dot-dot takes, and escapes if a dot-dot finds none to take. */
  lemma WalkIsSurviving(cs: seq<Component>)
    ensures Walk(ROOT, cs) == Place(Surviving(cs, 0), Unmatched(cs, 0) > 0)
  {
    WalkFromTheEnd(cs, 0);
  }

  // ----- properties of the specification -----

  function Join(cs: seq<Component>): seq<Char8>
    requires cs != []
  {
    if |cs| == 1 then cs[0] else cs[0] + [SLASH] + Join(cs[1..])
  }

  /** Split is the inverse of joining with slashes, and no part keeps a slash. */
  lemma {:induction false} SplitIsInverseOfJoin(s: seq<Char8>)
    ensures Join(Split(s)) == s
    ensures forall i :: 0 <= i < |Split(s)| ==> SLASH !in Split(s)[i]
  {
    if s != [] {
      SplitIsInverseOfJoin(s[1..]);
      JoinGlue(s[0], Split(s[1..]));
      assert s == [s[0]] + s[1..];
    }
  }

  lemma JoinGlue(h: Char8, parts: seq<Component>)
    requires parts != []
    ensures Join(Glue(h, parts)) == [h] + Join(parts)
  {
    if h == SLASH {
      assert ([[]] + parts)[1..] == parts;
    } else {
      assert Glue(h, parts)[1..] == parts[1..];
    }
  }

  lemma GlueConcat(h: Char8, a: seq<Component>, b: seq<Component>)
    requires a != []
    ensures Glue(h, a + b) == Glue(h, a) + b
  {
    assert (a + b)[1..] == a[1..] + b;
  }

  lemma {:induction false} SplitSingle(c: seq<Char8>)
    requires SLASH !in c
    ensures Split(c) == [c]
  {
    if c != [] {
      SplitSingle(c[1..]);
      assert c == [c[0]] + c[1..];
    }
  }

  /** Splitting distributes over concatenation with a slash. */
  lemma {:induction false} SplitConcat(a: seq<Char8>, b: seq<Char8>)
    ensures Split(a + [SLASH] + b) == Split(a) + Split(b)
    decreases |a|
  {
    var s := a + [SLASH] + b;
    if a == [] {
      assert s[1..] == b;
    } else {
      SplitConcat(a[1..], b);
      assert s[1..] == a[1..] + [SLASH] + b;
      GlueConcat(a[0], Split(a[1..]), Split(b));
    }
  }

  lemma SplitAtSlash(c: seq<Char8>, rest: seq<Char8>)
    requires SLASH !in c
    ensures Split(c + [SLASH] + rest) == [c] + Split(rest)
  {
    SplitConcat(c, rest);
    SplitSingle(c);
  }

  lemma {:induction false} WalkConcat(p: Place, a: seq<Component>, b: seq<Component>)
    ensures Walk(p, a + b) == Walk(Walk(p, a), b)
    decreases |a|
  {
    if a == [] {
      assert a + b == b;
    } else {
      WalkConcat(Enter(p, a[0]), a[1..], b);
      assert (a + b)[1..] == a[1..] + b;
    }
  }

  /** Where a walk ends depends on its escape flag only through a disjunction. */
  lemma {:induction false} WalkEscape(p: Place, cs: seq<Component>)
    ensures Walk(p, cs) == Place(Walk(p.(escaped := false), cs).stack,
                                 p.escaped || Walk(p.(escaped := false), cs).escaped)
    decreases |cs|
  {
    if cs != [] {
      WalkEscape(Enter(p, cs[0]), cs[1..]);
      WalkEscape(Enter(p.(escaped := false), cs[0]), cs[1..]);
    }
  }

  /** Components made of pathname characters keep the stack valid. */
  lemma {:induction false} WalkKeepsValid(p: Place, cs: seq<Component>)
    requires ValidStack(p.stack)
    requires forall i, j :: 0 <= i < |cs| && 0 <= j < |cs[i]| ==> IsPathChar(cs[i][j])
    ensures ValidStack(Walk(p, cs).stack)
    decreases |cs|
  {
    if cs != [] {
      assert forall j :: 0 <= j < |cs[0]| ==> IsPathChar(cs[0][j]);
      WalkKeepsValid(Enter(p, cs[0]), cs[1..]);
    }
  }

  /** Walking valid components just pushes them. */
  lemma {:induction false} WalkPushes(p: Place, cs: seq<Component>)
    requires ValidStack(cs)
    ensures Walk(p, cs) == p.(stack := p.stack + cs)
    decreases |cs|
  {
    if cs == [] {
      assert p.stack + cs == p.stack;
    } else {
      assert ValidComponent(cs[0]);
      WalkPushes(Enter(p, cs[0]), cs[1..]);
      assert p.stack + [cs[0]] + cs[1..] == p.stack + cs;
    }
  }

  lemma ValidHasNoSlash(c: Component)
    requires ValidComponent(c)
    ensures SLASH !in c && NUL !in c && BACKSLASH !in c
  {
  }

  /** Everything after a canonical pathname's first slash splits back into its stack. */
  lemma {:induction false} SplitRender(stack: seq<Component>)
    requires ValidStack(stack) && stack != []
    ensures Split(Render(stack)[1..]) == stack
    decreases |stack|
  {
    var up, c := Parent(stack), Last(stack);
    ValidHasNoSlash(c);
    SplitSingle(c);
    assert stack == up + [c];
    if up == [] {
      assert Render(stack)[1..] == c;
    } else {
      SplitRender(up);
      DirIsRender(up);
      assert Render(stack)[1..] == Render(up)[1..] + [SLASH] + c;
      SplitConcat(Render(up)[1..], c);
    }
  }

  lemma DirIsRender(stack: seq<Component>)
    ensures stack != [] ==> Dir(stack) == Render(stack) + [SLASH]
  {
  }

  /** Different stacks have different pathnames. */
  lemma RenderInjective(a: seq<Component>, b: seq<Component>)
    requires ValidStack(a) && ValidStack(b)
    requires Render(a) == Render(b)
    ensures a == b
  {
    if a == [] && b != [] {
      RenderLongerThanRoot(b);
    } else if b == [] && a != [] {
      RenderLongerThanRoot(a);
    } else if a != [] {
      SplitRender(a);
      SplitRender(b);
    }
  }

  lemma RenderLongerThanRoot(stack: seq<Component>)
    requires ValidStack(stack) && stack != []
    ensures |Render(stack)| > 1
  {
    assert ValidComponent(Last(stack));
  }

  /** All characters of a canonical pathname. */
  lemma {:induction false} RenderChars(stack: seq<Component>)
    requires ValidStack(stack)
    ensures forall i :: 0 <= i < |Dir(stack)| ==> Dir(stack)[i] == SLASH || IsPathChar(Dir(stack)[i])
    ensures forall i :: 0 <= i < |Render(stack)| ==> Render(stack)[i] == SLASH || IsPathChar(Render(stack)[i])
    decreases |stack|
  {
    if stack != [] {
      assert ValidComponent(Last(stack));
      RenderChars(Parent(stack));
    }
  }

  // ----- the parser -----

  datatype ParserState =
    | ParserInit
    | ParserEnd
    | ParserSlash
    | ParserDot
    | ParserDotDot
    | ParserNormal

  /**
    What the output written so far stands for: the directory `stack`, followed by
    the part `cur` of the component being read.
  */
  ghost predicate Represents(out: seq<Char8>, state: ParserState, stack: seq<Component>, cur: Component) {
    && ValidStack(stack)
    && out == Dir(stack) + cur
    && match state
       case ParserInit => false
       case ParserEnd => false
       case ParserSlash => cur == []
       case ParserDot => cur == [DOT]
       case ParserDotDot => cur == [DOT, DOT]
       case ParserNormal => ValidComponent(cur)
  }

  method ParserStripSlash(buffer: array<Char8>, position: nat, ghost stack: seq<Component>) returns (position': nat)
    requires position <= buffer.Length
    requires buffer[..position] == Dir(stack)
    requires ValidStack(stack)
    ensures position' <= position && position' >= 1
    ensures buffer[..position'] == Render(stack)
  {
    assert position >= 1;
    assert buffer[position - 1] == buffer[..position][position - 1] == SLASH;
    if stack != [] {
      DirIsRender(stack);
      RenderLongerThanRoot(stack);
    }
    if position == 1 {
      return position;
    }
    assert buffer[..position - 1] == buffer[..position][..position - 1];
    return position - 1;
  }

  method ParserCopy(buffer: array<Char8>, position: nat, size: nat, chr: Char8) returns (position': nat)
    requires size <= buffer.Length
    requires position < size
    modifies buffer
    ensures position' == position + 1
    ensures buffer[..position'] == old(buffer[..position]) + [chr]
  {
    buffer[position] := chr;
    position' := position + 1;
  }

  method ParserRewindDot(buffer: array<Char8>, position: nat, ghost stack: seq<Component>) returns (position': nat)
    requires position <= buffer.Length
    requires buffer[..position] == Dir(stack) + [DOT]
    ensures position' <= position
    ensures buffer[..position'] == Dir(stack)
  {
    assert position >= 2;
    assert buffer[position - 1] == buffer[..position][position - 1] == DOT;
    assert buffer[position - 2] == buffer[..position][position - 2] == SLASH;
    assert buffer[..position - 1] == buffer[..position][..position - 1];
    return position - 1;
  }

  method ParserRewindDotDot(buffer: array<Char8>, position: nat, rootEscape: bool, ghost stack: seq<Component>)
    returns (position': nat, rootEscape': bool)
    requires position <= buffer.Length
    requires ValidStack(stack)
    requires buffer[..position] == Dir(stack) + [DOT, DOT]
    ensures position' <= position
    ensures buffer[..position'] == Dir(Enter(Place(stack, rootEscape), [DOT, DOT]).stack)
    ensures rootEscape' == Enter(Place(stack, rootEscape), [DOT, DOT]).escaped
    // The same without component semantics: the parent's pathname, or the root's and an escape.
    ensures stack != [] ==> buffer[..position'] == Dir(Parent(stack)) && rootEscape' == rootEscape
    ensures stack == [] ==> buffer[..position'] == [SLASH] && rootEscape'
  {
    assert position >= 3;
    assert buffer[position - 1] == buffer[..position][position - 1] == DOT;
    assert buffer[position - 2] == buffer[..position][position - 2] == DOT;
    assert buffer[position - 3] == buffer[..position][position - 3] == SLASH;
    position', rootEscape' := position - 2, rootEscape;
    assert buffer[..position'] == buffer[..position][..position - 2] == Dir(stack);
    if stack != [] {
      DirIsRender(stack);
      RenderLongerThanRoot(stack);
    }
    if position' == 1 {
      rootEscape' := true;
      return;
    }
    position' := ParserScanBack(buffer, position', Dir(Parent(stack)), Last(stack));
  }

  /** Skip the slash at the end of the output, then drop the component before it. */
  method ParserScanBack(buffer: array<Char8>, position: nat, ghost d: seq<Char8>, ghost c: Component)
    returns (position': nat)
    requires position <= buffer.Length
    requires ValidComponent(c)
    requires d != [] && d[|d| - 1] == SLASH
    requires buffer[..position] == d + c + [SLASH]
    ensures position' <= position
    ensures buffer[..position'] == d
  {
    ghost var whole := buffer[..position];
    assert forall i :: 0 <= i < |whole| ==> buffer[i] == whole[i];
    assert forall i :: 0 <= i < |d| ==> whole[i] == d[i];
    assert forall i :: |d| <= i < |d| + |c| ==> whole[i] == c[i - |d|] && whole[i] != SLASH;
    position' := position - 2;
    while buffer[position'] != SLASH
      invariant |d| - 1 <= position' < |d| + |c|
      decreases position'
    {
      position' := position' - 1;
    }
    position' := position' + 1;
    assert buffer[..position'] == whole[..position'] == d;
  }

  /**
    What one iteration must establish, in terms of components: a slash or the
    terminator enters the current component, any other character extends it.
  */
  ghost predicate Stepped(out: seq<Char8>, state: ParserState, rootEscape: bool, chr: Char8, p: Place, cur: Component) {
    if chr == NUL then
      && state == ParserEnd
      && ValidStack(Enter(p, cur).stack)
      && out == Render(Enter(p, cur).stack) + [NUL]
      && rootEscape == Enter(p, cur).escaped
    else if chr == SLASH then
      && Represents(out, state, Enter(p, cur).stack, [])
      && rootEscape == Enter(p, cur).escaped
    else
      && Represents(out, state, p.stack, cur + [chr])
      && rootEscape == p.escaped
  }

  /** What a character behind up to two dots makes of the component. */
  lemma AfterDots(chr: Char8)
    requires IsPathChar(chr)
    ensures if chr == DOT then [DOT] + [chr] == [DOT, DOT] else ValidComponent([chr]) && ValidComponent([DOT] + [chr])
    ensures ValidComponent([DOT, DOT] + [chr])
  {
    assert |[DOT, DOT] + [chr]| == 3;
    assert chr != DOT ==> ([DOT] + [chr])[1] != DOT && [chr][0] != DOT;
  }

  method StepSlash(buffer: array<Char8>, position: nat, size: nat, chr: Char8, ghost p: Place)
    returns (position': nat, state': ParserState)
    requires position < size <= buffer.Length
    requires ValidStack(p.stack) && buffer[..position] == Dir(p.stack)
    requires chr == NUL || chr == SLASH || IsPathChar(chr)
    modifies buffer
    ensures position' <= position + 1
    ensures Stepped(buffer[..position'], state', p.escaped, chr, p, [])
  {
    position' := position;
    if chr == NUL {
      position' := ParserStripSlash(buffer, position', p.stack);
      position' := ParserCopy(buffer, position', size, chr);
      state' := ParserEnd;
    } else if chr == SLASH {
      state' := ParserSlash;
      assert Dir(p.stack) + [] == Dir(p.stack);
    } else if chr == DOT {
      position' := ParserCopy(buffer, position', size, chr);
      state' := ParserDot;
      assert [] + [chr] == [chr];
    } else {
      position' := ParserCopy(buffer, position', size, chr);
      state' := ParserNormal;
      assert [] + [chr] == [chr];
      AfterDots(chr);
    }
  }

  method StepDot(buffer: array<Char8>, position: nat, size: nat, chr: Char8, ghost p: Place)
    returns (position': nat, state': ParserState)
    requires position < size <= buffer.Length
    requires ValidStack(p.stack) && buffer[..position] == Dir(p.stack) + [DOT]
    requires chr == NUL || chr == SLASH || IsPathChar(chr)
    modifies buffer
    ensures position' <= position + 1
    ensures Stepped(buffer[..position'], state', p.escaped, chr, p, [DOT])
  {
    position' := position;
    if chr == NUL {
      position' := ParserRewindDot(buffer, position', p.stack);
      position' := ParserStripSlash(buffer, position', p.stack);
      position' := ParserCopy(buffer, position', size, chr);
      state' := ParserEnd;
    } else if chr == SLASH {
      position' := ParserRewindDot(buffer, position', p.stack);
      state' := ParserSlash;
      assert Dir(p.stack) + [] == Dir(p.stack);
    } else {
      position' := ParserCopy(buffer, position', size, chr);
      assert Dir(p.stack) + [DOT] + [chr] == Dir(p.stack) + ([DOT] + [chr]);
      AfterDots(chr);
      state' := if chr == DOT then ParserDotDot else ParserNormal;
    }
  }

  method StepDotDot(buffer: array<Char8>, position: nat, size: nat, rootEscape: bool, chr: Char8, ghost p: Place)
    returns (position': nat, state': ParserState, rootEscape': bool)
    requires position < size <= buffer.Length
    requires ValidStack(p.stack) && buffer[..position] == Dir(p.stack) + [DOT, DOT]
    requires rootEscape == p.escaped
    requires chr == NUL || chr == SLASH || IsPathChar(chr)
    modifies buffer
    ensures position' <= position + 1
    ensures Stepped(buffer[..position'], state', rootEscape', chr, p, [DOT, DOT])
  {
    position', rootEscape' := position, rootEscape;
    ghost var q := Enter(p, [DOT, DOT]);
    assert p == Place(p.stack, rootEscape);
    assert ValidStack(q.stack);
    if chr == NUL {
      position', rootEscape' := ParserRewindDotDot(buffer, position', rootEscape', p.stack);
      position' := ParserStripSlash(buffer, position', q.stack);
      position' := ParserCopy(buffer, position', size, chr);
      state' := ParserEnd;
    } else if chr == SLASH {
      position', rootEscape' := ParserRewindDotDot(buffer, position', rootEscape', p.stack);
      state' := ParserSlash;
      assert Dir(q.stack) + [] == Dir(q.stack);
    } else {
      position' := ParserCopy(buffer, position', size, chr);
      assert Dir(p.stack) + [DOT, DOT] + [chr] == Dir(p.stack) + ([DOT, DOT] + [chr]);
      AfterDots(chr);
      state' := ParserNormal;
    }
  }

  method StepNormal(buffer: array<Char8>, position: nat, size: nat, chr: Char8, ghost p: Place, ghost cur: Component)
    returns (position': nat, state': ParserState)
    requires position < size <= buffer.Length
    requires ValidStack(p.stack) && ValidComponent(cur) && buffer[..position] == Dir(p.stack) + cur
    requires chr == NUL || chr == SLASH || IsPathChar(chr)
    modifies buffer
    ensures position' <= position + 1
    ensures Stepped(buffer[..position'], state', p.escaped, chr, p, cur)
  {
    PushKeepsValid(p.stack, cur);
    position' := ParserCopy(buffer, position, size, chr);
    if chr == NUL {
      state' := ParserEnd;
    } else if chr == SLASH {
      state' := ParserSlash;
      assert Dir(p.stack + [cur]) + [] == Dir(p.stack + [cur]);
    } else {
      state' := ParserNormal;
      ExtendKeepsValid(cur, chr);
      assert Dir(p.stack) + cur + [chr] == Dir(p.stack) + (cur + [chr]);
    }
  }

  /** One iteration of the state machine after the leading slash. */
  method ParserStep(buffer: array<Char8>, position: nat, size: nat, state: ParserState, rootEscape: bool, chr: Char8,
                    ghost p: Place, ghost cur: Component)
    returns (position': nat, state': ParserState, rootEscape': bool)
    requires position < size <= buffer.Length
    requires Represents(buffer[..position], state, p.stack, cur)
    requires rootEscape == p.escaped
    requires chr == NUL || chr == SLASH || IsPathChar(chr)
    modifies buffer
    ensures SLASH !in cur
    ensures position' <= position + 1
    ensures Stepped(buffer[..position'], state', rootEscape', chr, p, cur)
  {
    rootEscape' := rootEscape;
    match state {
      case ParserSlash =>
        assert Dir(p.stack) + [] == Dir(p.stack);
        position', state' := StepSlash(buffer, position, size, chr, p);
      case ParserDot =>
        position', state' := StepDot(buffer, position, size, chr, p);
      case ParserDotDot =>
        position', state', rootEscape' := StepDotDot(buffer, position, size, rootEscape, chr, p);
      case ParserNormal =>
        position', state' := StepNormal(buffer, position, size, chr, p, cur);
    }
  }

  lemma ExtendKeepsValid(c: Component, chr: Char8)
    requires ValidComponent(c) && IsPathChar(chr)
    ensures ValidComponent(c + [chr])
  {
    assert (c + [chr])[0] == c[0];
    assert |c| == 1 ==> c == [c[0]];
  }

  lemma PushKeepsValid(stack: seq<Component>, c: Component)
    requires ValidStack(stack) && ValidComponent(c)
    ensures ValidStack(stack + [c])
    ensures Parent(stack + [c]) == stack && Last(stack + [c]) == c
    ensures Dir(stack + [c]) == Dir(stack) + c + [SLASH]
    ensures Render(stack + [c]) == Dir(stack) + c
  {
  }

  /** A NUL-terminated absolute pathname made of slashes and pathname characters. */
  predicate Sanitizable(input: seq<Char8>) {
    && |input| >= 2
    && input[0] == SLASH
    && input[|input| - 1] == NUL
    && forall i :: 0 <= i < |input| - 1 ==> input[i] == SLASH || IsPathChar(input[i])
  }

  /**
    The state machine proper. The buffer has exactly the size of the input, so the
    array bounds are the driver's promise that the sanitized pathname never outgrows
    the concatenation.
  */
  method Sanitize(input: seq<Char8>) returns (buffer: array<Char8>, position: nat, rootEscape: bool)
    requires Sanitizable(input)
    ensures fresh(buffer) && buffer.Length == |input|
    ensures 2 <= position <= buffer.Length
    ensures var p := Goal(input);
            && ValidStack(p.stack)
            && buffer[..position] == Render(p.stack) + [NUL]
            && rootEscape == p.escaped
  {
    buffer := new Char8[|input|];
    rootEscape := false;
    position := 0;
    var idx := 0;
    var state := ParserInit;
    ghost var goal := Goal(input);
    ghost var place: Place, cur: Component := ROOT, [];
    while state != ParserEnd
      invariant 0 <= position <= idx <= |input|
      invariant state == ParserInit ==> position == idx == 0 && !rootEscape && place == ROOT && cur == []
      invariant state != ParserInit ==> Parsed(buffer[..position], state, rootEscape, place, cur, input, idx, goal)
      decreases |input| - idx, state != ParserEnd
    {
      if state == ParserInit {
        position := ParserCopy(buffer, position, |input|, input[idx]);
        state := ParserSlash;
        ParsedInit(buffer[..position], input);
      } else {
        position, state, rootEscape, place, cur := SanitizeStep(buffer, position, state, rootEscape, place, cur, input, idx, goal);
      }
      idx := idx + 1;
    }
  }

  /** Where the whole input leads. */
  function Goal(input: seq<Char8>): Place
    requires Sanitizable(input)
  {
    Walk(ROOT, Split(input[1..|input| - 1]))
  }

  /** From place p, in the middle of component `cur`, the rest of the text leads to `goal`. */
  ghost predicate Heading(p: Place, cur: Component, rest: seq<Char8>, goal: Place) {
    Walk(p, Split(cur + rest)) == goal
  }

  /** The loop invariant: the rest of the input, walked from here, ends where the whole input does. */
  ghost predicate Parsed(out: seq<Char8>, state: ParserState, rootEscape: bool, p: Place, cur: Component,
                         input: seq<Char8>, idx: nat, goal: Place)
    requires Sanitizable(input)
  {
    var n := |input| - 1;
    && rootEscape == p.escaped
    && if state == ParserEnd then
         && p == goal
         && ValidStack(p.stack)
         && out == Render(p.stack) + [NUL]
       else
         && 1 <= idx <= n
         && Represents(out, state, p.stack, cur)
         && Heading(p, cur, input[idx..n], goal)
  }

  lemma ParsedInit(out: seq<Char8>, input: seq<Char8>)
    requires Sanitizable(input)
    requires out == [SLASH]
    ensures Parsed(out, ParserSlash, false, ROOT, [], input, 1, Goal(input))
  {
    var n := |input| - 1;
    assert Dir([]) + [] == [SLASH];
    assert [] + input[1..n] == input[1..n];
  }

  /** One character behind the first slash. */
  method SanitizeStep(buffer: array<Char8>, position: nat, state: ParserState, rootEscape: bool, ghost p: Place, ghost cur: Component,
                      input: seq<Char8>, idx: nat, ghost goal: Place)
    returns (position': nat, state': ParserState, rootEscape': bool, ghost p': Place, ghost cur': Component)
    requires Sanitizable(input) && buffer.Length == |input| && position <= idx <= |input| && state != ParserInit && state != ParserEnd
    requires Parsed(buffer[..position], state, rootEscape, p, cur, input, idx, goal)
    modifies buffer
    ensures idx < |input| && position' <= idx + 1 && state' != ParserInit
    ensures Parsed(buffer[..position'], state', rootEscape', p', cur', input, idx + 1, goal)
  {
    var chr := input[idx];
    position', state', rootEscape' := ParserStep(buffer, position, |input|, state, rootEscape, chr, p, cur);
    p', cur' := ParsedStep(buffer[..position'], state', rootEscape', p, cur, input, idx, goal);
  }

  /** A component ends at a slash or at the end of the text, and is entered there. */
  lemma WalkComponent(p: Place, cur: Component, tail: seq<Char8>)
    requires SLASH !in cur
    ensures Walk(p, Split(cur)) == Enter(p, cur)
    ensures Walk(p, Split(cur + [SLASH] + tail)) == Walk(Enter(p, cur), Split(tail))
  {
    SplitSingle(cur);
    assert Walk(p, [cur]) == Walk(Enter(p, cur), [cur][1..]);
    SplitAtSlash(cur, tail);
    assert ([cur] + Split(tail))[1..] == Split(tail);
  }

  /** What is ahead, after one more character. */
  lemma HeadingOn(p: Place, cur: Component, chr: Char8, tail: seq<Char8>, goal: Place)
    requires SLASH !in cur && Heading(p, cur, [chr] + tail, goal)
    ensures if chr == SLASH then Heading(Enter(p, cur), [], tail, goal) else Heading(p, cur + [chr], tail, goal)
  {
    assert cur + ([chr] + tail) == cur + [chr] + tail;
    if chr == SLASH {
      WalkComponent(p, cur, tail);
      assert [] + tail == tail;
    }
  }

  lemma HeadingDone(p: Place, cur: Component, goal: Place)
    requires SLASH !in cur && Heading(p, cur, [], goal)
    ensures Enter(p, cur) == goal
  {
    assert cur + [] == cur;
    WalkComponent(p, cur, []);
  }

  lemma ParsedStep(out: seq<Char8>, state: ParserState, rootEscape: bool, p: Place, cur: Component,
                   input: seq<Char8>, idx: nat, goal: Place)
    returns (p': Place, cur': Component)
    requires Sanitizable(input) && 1 <= idx < |input|
    requires SLASH !in cur
    requires Heading(p, cur, input[idx..|input| - 1], goal)
    requires Stepped(out, state, rootEscape, input[idx], p, cur)
    ensures state != ParserInit && Parsed(out, state, rootEscape, p', cur', input, idx + 1, goal)
  {
    var n, chr := |input| - 1, input[idx];
    if chr == NUL {
      p', cur' := Enter(p, cur), [];
      assert input[idx..n] == [];
      HeadingDone(p, cur, goal);
    } else {
      assert input[idx..n] == [chr] + input[idx + 1..n];
      HeadingOn(p, cur, chr, input[idx + 1..n], goal);
      if chr == SLASH {
        p', cur' := Enter(p, cur), [];
      } else {
        p', cur' := p, cur + [chr];
      }
    }
  }
}
