/** Canonical key names as a root and a list of parts, and the fold that keyAddName performs. */
module KeyNames {
  import opened Bytes
  import opened Escaping
  import opened Levels

  const SPEC: seq<byte> := [115, 112, 101, 99]
  const PROC: seq<byte> := [112, 114, 111, 99]
  const DIR: seq<byte> := [100, 105, 114]
  const USER: seq<byte> := [117, 115, 101, 114]
  const SYSTEM: seq<byte> := [115, 121, 115, 116, 101, 109]

  predicate IsNamespace(root: seq<byte>) {
    root == SPEC || root == PROC || root == DIR || root == USER || root == SYSTEM
  }

  /** root is a namespace, or empty for a cascading name; parts are kept escaped. */
  datatype Name = Name(root: seq<byte>, parts: seq<seq<byte>>) {

    predicate Valid() {
      (root == [] || IsNamespace(root)) && ValidParts(parts)
    }

    /** Enough structure to be read back from the rendered form. */
    predicate Readable() {
      (root == [] || (root != [] && WellEscaped(root, 0))) && WellEscapedParts(parts)
    }

    function Render(): seq<byte> {
      if root == [] && parts == [] then [SLASH] else root + Path(parts)
    }

    function Levels(): seq<seq<byte>> {
      if root == [] then parts else [root] + parts
    }
  }

  function Parse(key: seq<byte>): Name {
    var levels := Split(key);
    if levels == [] || key[0] == SLASH then Name([], levels) else Name(levels[0], levels[1..])
  }

  /** The names keySetName and keyAddName store. */
  predicate Canonical(key: seq<byte>) {
    Parse(key).Valid() && key == Parse(key).Render()
  }

  lemma NamespaceIsPart(root: seq<byte>)
    requires IsNamespace(root)
    ensures ValidPart(root) && SLASH !in root && BACKSLASH !in root
  {
    NoEscapesIsWellEscaped(root);
  }

  lemma {:induction false} NoEscapesIsWellEscaped(s: seq<byte>)
    requires SLASH !in s && BACKSLASH !in s
    ensures WellEscaped(s, 0)
  {
    if s != [] {
      NoEscapesIsWellEscaped(s[1..]);
    }
  }

  lemma ValidIsReadable(n: Name)
    requires n.Valid()
    ensures n.Readable()
  {
    if n.root != [] {
      NamespaceIsPart(n.root);
    }
  }

  /** A rendered name splits into its root and its parts. */
  lemma SplitRender(n: Name)
    requires n.Readable()
    ensures Split(n.Render()) == n.Levels()
  {
    PathStartsWithSlash(n.parts);
    SplitPath(n.parts);
    if n.root != [] {
      SplitFirst(n.root, Path(n.parts));
    } else if n.parts == [] {
      SplitAfterSlash([]);
      assert [SLASH] + [] == [SLASH];
    } else {
      assert [] + Path(n.parts) == Path(n.parts);
    }
  }

  lemma RenderStart(n: Name)
    requires n.Readable()
    ensures n.Render() != [] && (n.Render()[0] == SLASH <==> n.root == [])
  {
    PathStartsWithSlash(n.parts);
  }

  /** Rendering is injective: the name can be read back. */
  lemma ParseRender(n: Name)
    requires n.Readable()
    ensures Parse(n.Render()) == n
    ensures n.Valid() ==> Canonical(n.Render())
  {
    SplitRender(n);
    RenderStart(n);
  }

  // ---------- the fold ----------

  function Pop(stack: seq<seq<byte>>): seq<seq<byte>> {
    if stack == [] then [] else stack[..|stack| - 1]
  }

  /** "." stays, ".." goes up but never above the root, anything else goes down. */
  function Step(stack: seq<seq<byte>>, level: seq<byte>): seq<seq<byte>> {
    if level == [DOT] then stack
    else if level == [DOT, DOT] then Pop(stack)
    else stack + [level]
  }

  function Walk(stack: seq<seq<byte>>, levels: seq<seq<byte>>): seq<seq<byte>>
    decreases |levels|
  {
    if levels == [] then stack else Walk(Step(stack, levels[0]), levels[1..])
  }

  /** Walking in two stages. */
  lemma {:induction false} WalkConcat(stack: seq<seq<byte>>, a: seq<seq<byte>>, b: seq<seq<byte>>)
    ensures Walk(stack, a + b) == Walk(Walk(stack, a), b)
    decreases |a|
  {
    if a == [] {
      assert a + b == b;
    } else {
      assert (a + b)[1..] == a[1..] + b;
      WalkConcat(Step(stack, a[0]), a[1..], b);
    }
  }

  /** Walking over well-escaped levels leaves only valid parts. */
  lemma {:induction false} WalkIsValid(stack: seq<seq<byte>>, levels: seq<seq<byte>>)
    requires ValidParts(stack)
    requires WellEscapedParts(levels) && NulFreeParts(levels)
    ensures ValidParts(Walk(stack, levels))
    decreases |levels|
  {
    if levels != [] {
      assert ValidParts(Step(stack, levels[0]));
      WalkIsValid(Step(stack, levels[0]), levels[1..]);
    }
  }

  /** Valid parts are just pushed. */
  lemma {:induction false} WalkValidParts(stack: seq<seq<byte>>, parts: seq<seq<byte>>)
    requires ValidParts(parts)
    ensures Walk(stack, parts) == stack + parts
    decreases |parts|
  {
    if parts == [] {
      assert stack + parts == stack;
    } else {
      WalkValidParts(stack + [parts[0]], parts[1..]);
      assert parts == [parts[0]] + parts[1..];
      assert stack + [parts[0]] + parts[1..] == stack + parts;
    }
  }

  /** What a name becomes when newName is added to it. */
  function Added(n: Name, newName: seq<byte>): Name {
    n.(parts := Walk(n.parts, Split(newName)))
  }

  /** The sum of a canonical name and a name with an even run of backslashes at its end is canonical. */
  lemma AddedIsCanonical(n: Name, newName: seq<byte>)
    requires n.Valid()
    requires NulFree(newName) && TrailingBackslashes(newName) % 2 == 0
    ensures Added(n, newName).Valid() && Canonical(Added(n, newName).Render())
  {
    SplitIsWellEscaped(newName);
    WalkIsValid(n.parts, Split(newName));
    ValidIsReadable(Added(n, newName));
    ParseRender(Added(n, newName));
  }

  /** Adding a path that is already canonical appends exactly its parts. */
  lemma AddCanonicalPath(n: Name, parts: seq<seq<byte>>)
    requires ValidParts(parts)
    ensures Added(n, Path(parts)) == n.(parts := n.parts + parts)
    ensures n.parts == [] ==> Added(n, Path(parts)) == n.(parts := parts)
  {
    SplitPath(parts);
    WalkValidParts(n.parts, parts);
    assert [] + parts == parts;
  }

  /** Adding "a/b" is adding a, then b. */
  lemma AddInTwoSteps(n: Name, a: seq<byte>, b: seq<byte>)
    requires TrailingBackslashes(a) % 2 == 0
    ensures Added(n, a + ([SLASH] + b)) == Added(Added(n, a), b)
  {
    hide Split, Walk, TrailingBackslashes;
    PendingRunIsTrailing(a, 0);
    SplitConcat(a, [SLASH] + b);
    SplitAfterSlash(b);
    WalkConcat(n.parts, Split(a), Split(b));
  }

  /** Going down one part and up again changes nothing. */
  lemma AddThenUp(n: Name, part: seq<byte>)
    requires ValidPart(part)
    ensures Added(n, part + [SLASH, DOT, DOT]) == n
  {
    hide Split;
    SplitFirst(part, [SLASH, DOT, DOT]);
    assert [SLASH, DOT, DOT] == [SLASH] + ([DOT, DOT] + []);
    NoEscapesIsWellEscaped([DOT, DOT]);
    SplitFirst([DOT, DOT], []);
    SplitEmpty();
    assert Split(part + [SLASH, DOT, DOT]) == [part, [DOT, DOT]];
    assert [part, [DOT, DOT]][1..] == [[DOT, DOT]] && [[DOT, DOT]][1..] == [];
    assert Walk(n.parts, [part, [DOT, DOT]]) == Walk(n.parts + [part], [[DOT, DOT]]);
    assert Walk(n.parts + [part], [[DOT, DOT]]) == Walk(n.parts, []);
  }

  lemma PathOfOne(part: seq<byte>)
    ensures Path([part]) == [SLASH] + part
  {
    assert [part][1..] == [] && part + [] == part;
  }

  lemma AddPart(n: Name, part: seq<byte>)
    requires ValidPart(part)
    ensures Added(n, part) == n.(parts := n.parts + [part])
  {
    hide Split, Walk;
    assert ValidParts([part]);
    AddCanonicalPath(n, [part]);
    PathOfOne(part);
    SplitAfterSlash(part);
  }

  /** What a single level does: "." nothing, ".." takes the last part away if there is one, any other is a new part. */
  lemma AddLevel(n: Name, level: seq<byte>)
    requires level != [] && WellEscaped(level, 0)
    ensures level == [DOT] ==> Added(n, level) == n
    ensures level == [DOT, DOT] && n.parts == [] ==> Added(n, level) == n
    ensures level == [DOT, DOT] && n.parts != [] ==> Added(n, level) == Name(n.root, n.parts[..|n.parts| - 1])
    ensures level != [DOT] && level != [DOT, DOT] ==> Added(n, level) == Name(n.root, n.parts + [level])
  {
    hide Split, WellEscaped;
    SplitFirst(level, []);
    SplitEmpty();
    assert level + [] == level;
    assert Split(level) == [level] && [level][1..] == [];
    var next := Step(n.parts, level);
    assert Walk(n.parts, [level]) == Walk(next, []) == next;
  }

  lemma AddNothing(n: Name)
    ensures Added(n, []) == n
  {
    SplitEmpty();
  }

  /** A "." level changes nothing, wherever it stands; neither does a second slash. */
  lemma DotsChangeNothing(n: Name, a: seq<byte>, b: seq<byte>)
    requires TrailingBackslashes(a) % 2 == 0
    ensures Added(n, [DOT] + ([SLASH] + b)) == Added(n, b)
    ensures Added(n, a + ([SLASH] + [DOT])) == Added(n, a)
    ensures Added(n, a + ([SLASH] + ([DOT] + ([SLASH] + b)))) == Added(n, a + ([SLASH] + b))
    ensures Added(n, a + ([SLASH] + ([SLASH] + b))) == Added(n, a + ([SLASH] + b))
  {
    hide Added;
    NoEscapesIsWellEscaped([DOT]);
    AddLevel(n, [DOT]);
    AddLevel(Added(n, a), [DOT]);
    AddInTwoSteps(n, [DOT], b);
    AddInTwoSteps(n, a, [DOT]);
    AddInTwoSteps(n, a, b);
    AddInTwoSteps(n, a, [DOT] + ([SLASH] + b));
    AddInTwoSteps(Added(n, a), [DOT], b);
    AddInTwoSteps(n, a, [SLASH] + b);
    AddInTwoSteps(Added(n, a), [], b);
    AddNothing(Added(n, a));
    assert [] + ([SLASH] + b) == [SLASH] + b;
  }

  /** The root cannot be left. */
  lemma UpFromRoot(root: seq<byte>, b: seq<byte>)
    ensures Added(Name(root, []), [DOT, DOT]) == Name(root, [])
    ensures Added(Name(root, []), [DOT, DOT] + ([SLASH] + b)) == Added(Name(root, []), b)
  {
    hide Added;
    NoEscapesIsWellEscaped([DOT, DOT]);
    AddLevel(Name(root, []), [DOT, DOT]);
    AddInTwoSteps(Name(root, []), [DOT, DOT], b);
  }

  /** From "user/a", "../b" leads to another name of the same size, for which keyAddName returns 0. */
  lemma SameSizeOtherName()
    ensures var n, newName := Name(USER, [[97]]), [DOT, DOT, SLASH, 98];
      && n.Valid() && Accepted(newName) && Added(n, newName) == Name(USER, [[98]])
      && |Added(n, newName).Render()| == |n.Render()|
  {
    hide Added, Path;
    var n := Name(USER, [[97]]);
    assert [DOT, DOT] + ([SLASH] + [98]) == [DOT, DOT, SLASH, 98];
    AddInTwoSteps(n, [DOT, DOT], [98]);
    NoEscapesIsWellEscaped([DOT, DOT]);
    AddLevel(n, [DOT, DOT]);
    AddPart(Name(USER, []), [98]);
    PathOfOne([97]);
    PathOfOne([98]);
  }

  /** An escaped string is always one level, however many slashes it contains. */
  lemma EscapedIsOneLevel(s: seq<byte>)
    requires NulFree(s)
    ensures Split(Escape(s)) == [Escape(s)]
  {
    EscapeIsValid(s);
    SplitFirst(Escape(s), []);
    SplitEmpty();
    assert Escape(s) + [] == Escape(s);
    assert [Escape(s)] + [] == [Escape(s)];
  }

  // ---------- the check at the end of a name ----------

  /** What elektraValidateKeyName computes: it never looks at the first byte. */
  predicate Accepted(newName: seq<byte>)
    requires newName != []
  {
    TrailingBackslashes(newName[1..]) % 2 == 0
  }

  predicate OnlyBackslashes(s: seq<byte>) {
    forall i | 0 <= i < |s| :: s[i] == BACKSLASH
  }

  lemma {:induction false} TrailingOfOnlyBackslashes(s: seq<byte>)
    ensures OnlyBackslashes(s) <==> TrailingBackslashes(s) == |s|
  {
    if s != [] {
      TrailingOfOnlyBackslashes(s[..|s| - 1]);
    }
  }

  /** The check is right exactly for the names that hold some other byte than a backslash. */
  lemma AcceptedIsRight(newName: seq<byte>)
    requires newName != []
    ensures (Accepted(newName) <==> TrailingBackslashes(newName) % 2 == 0) <==> !OnlyBackslashes(newName)
  {
    var m, n := TrailingBackslashes(newName), TrailingBackslashes(newName[1..]);
    TrailingBackslashesTail(newName);
    TrailingOfOnlyBackslashes(newName);
    assert m == if OnlyBackslashes(newName) then n + 1 else n by {
      hide *;
    }
    ParityChanges(n);
  }

  lemma ParityChanges(n: nat)
    ensures n % 2 == 0 <==> (n + 1) % 2 != 0
  {
  }

  /** The stray backslashes that the check lets through. */
  predicate Stray(newName: seq<byte>) {
    newName != [] && OnlyBackslashes(newName) && |newName| % 2 == 1
  }

  /** A single backslash passes the check, and the name it is added to is no longer canonical. */
  lemma LoneBackslashIsAccepted()
    ensures Accepted([BACKSLASH]) && Stray([BACKSLASH])
    ensures var n := Added(Name(USER, []), [BACKSLASH]); n.parts == [[BACKSLASH]] && !n.Valid()
  {
    assert [BACKSLASH][1..] == [];
    StrayIsPushed([], [BACKSLASH]);
    assert [] + [[BACKSLASH]] == [[BACKSLASH]];
    assert !ValidPart([[BACKSLASH]][0]);
  }

  lemma {:induction false} BackslashesAreOneLevel(s: seq<byte>, run: nat)
    requires OnlyBackslashes(s)
    ensures LevelLength(s, run) == |s| && (WellEscaped(s, run) <==> (|s| + run) % 2 == 0)
  {
    if s != [] {
      BackslashesAreOneLevel(s[1..], run + 1);
    }
  }

  lemma StrayIsPushed(stack: seq<seq<byte>>, newName: seq<byte>)
    requires Stray(newName)
    ensures Split(newName) == [newName] && !WellEscaped(newName, 0)
    ensures Walk(stack, Split(newName)) == stack + [newName]
  {
    BackslashesAreOneLevel(newName, 0);
    assert newName[0] == BACKSLASH && LeadingSlashes(newName) == 0;
    assert newName[..|newName|] == newName;
    assert [newName] + [] == [newName];
    assert Step(stack, newName) == stack + [newName];
    assert Walk(stack + [newName], []) == stack + [newName];
  }

  /** Behind the parts of a path a name goes on with its own levels. */
  lemma {:induction false} SplitPathThen(parts: seq<seq<byte>>, rest: seq<byte>)
    requires WellEscapedParts(parts) && (rest == [] || rest[0] == SLASH)
    ensures Split(Path(parts) + rest) == parts + Split(rest)
  {
    hide *;
    if parts == [] {
      PathNil();
      assert [] + rest == rest && [] + Split(rest) == Split(rest);
    } else {
      var behind := Path(parts[1..]) + rest;
      WellEscapedCons(parts);
      PathUnfold(parts);
      SplitPathThen(parts[1..], rest);
      PathStartsWithSlash(parts[1..]);
      assert behind == [] || behind[0] == SLASH;
      SplitFirst(parts[0], behind);
      assert Path(parts) + rest == [SLASH] + (parts[0] + behind);
      assert [parts[0]] + (parts[1..] + Split(rest)) == parts + Split(rest);
    }
  }

  /** The levels of the sum end in the stray backslashes: they are not well escaped. */
  lemma StrayIsLastLevel(n: Name, newName: seq<byte>)
    requires n.Valid() && Stray(newName)
    ensures Split(Added(n, newName).Render()) == n.Levels() + [newName] && !WellEscaped(newName, 0)
  {
    hide Split, Walk, Path, WellEscaped;
    StrayIsPushed(n.parts, newName);
    ValidIsReadable(n);
    var tail := [SLASH] + newName;
    PathAppend(n.parts, [newName]);
    PathOfOne(newName);
    SplitAfterSlash(newName);
    SplitPathThen(n.parts, tail);
    assert Path(n.parts + [newName]) == Path(n.parts) + tail;
    if n.root != [] {
      PathStartsWithSlash(n.parts);
      SplitFirst(n.root, Path(n.parts) + tail);
    } else {
      assert [] + (Path(n.parts) + tail) == Path(n.parts) + tail;
    }
  }

  /**
    Whatever name passes the check: its sum with a canonical name is canonical exactly if it is not a run
    of stray backslashes. Otherwise the levels of the sum are not well escaped, which unescaping asserts.
   */
  lemma AddedIsCanonicalExactlyIf(n: Name, newName: seq<byte>)
    requires n.Valid() && NulFree(newName) && newName != [] && Accepted(newName)
    ensures Added(n, newName).Valid() <==> !Stray(newName)
    ensures WellEscapedParts(Split(Added(n, newName).Render())) <==> !Stray(newName)
  {
    hide Split, Walk, WellEscaped, TrailingBackslashes, Name.Render;
    if Stray(newName) {
      StrayIsPushed(n.parts, newName);
      StrayIsLastLevel(n, newName);
      assert Added(n, newName).parts[|n.parts|] == newName;
      assert (n.Levels() + [newName])[|n.Levels()|] == newName;
    } else {
      AcceptedIsRight(newName);
      TrailingOfOnlyBackslashes(newName);
      ParityChanges(|newName|);
      AddedIsCanonical(n, newName);
      ValidIsReadable(Added(n, newName));
      SplitRender(Added(n, newName));
    }
  }

  // ---------- the unescaped name ----------

  /** The parts, unescaped, each closed by a NUL. */
  function UnescapedParts(parts: seq<seq<byte>>): seq<byte> {
    if parts == [] then [] else (Unescape(parts[0]) + [NUL]) + UnescapedParts(parts[1..])
  }

  function UnescapedName(key: seq<byte>): seq<byte> {
    if key != [] && key[0] == SLASH then [NUL] + UnescapedParts(Split(key)) else UnescapedParts(Split(key))
  }

  lemma {:induction false} UnescapedPartsLength(name: seq<byte>)
    requires NulFree(name)
    ensures |UnescapedParts(Split(name))| <= |name| + (if name == [] || name[0] == SLASH then 0 else 1)
    decreases |name|
  {
    var rest := name[LeadingSlashes(name)..];
    if rest != [] {
      var n := LevelLength(rest, 0);
      UnescapeNulFree(rest[..n]);
      UnescapedPartsLength(rest[n..]);
      assert Split(name)[1..] == Split(rest[n..]);
    }
  }

  /** The unescaped name fits into as many bytes as the escaped one takes with its terminator. */
  lemma UnescapedNameLength(key: seq<byte>)
    requires NulFree(key)
    ensures |UnescapedName(key)| <= |key| + 1
  {
    UnescapedPartsLength(key);
  }
}
