/** The name fields of struct _Key and the functions of keyname.c that rewrite them in place. */
module NamedKeys {
  import opened Bytes
  import opened Escaping
  import opened EscapingBuffers
  import opened Levels
  import opened KeyNames

  datatype Namespace = Empty | Cascading | Spec | Proc | Dir | User | System | Meta

  /** The string is the namespace itself or goes on with a slash. */
  predicate StartsWith(name: seq<byte>, root: seq<byte>) {
    name == root || root + [SLASH] <= name
  }

  function NamespaceOf(name: seq<byte>): Namespace {
    if name == [] then Empty
    else if name[0] == SLASH then Cascading
    else if StartsWith(name, SPEC) then Spec
    else if StartsWith(name, PROC) then Proc
    else if StartsWith(name, DIR) then Dir
    else if StartsWith(name, USER) then User
    else if StartsWith(name, SYSTEM) then System
    else Meta
  }

  function RootOf(ns: Namespace): seq<byte> {
    match ns
    case Spec => SPEC
    case Proc => PROC
    case Dir => DIR
    case User => USER
    case System => SYSTEM
    case _ => []
  }

  /** The key below n whose last part unescapes to baseName. */
  function Child(n: Name, baseName: seq<byte>): Name {
    n.(parts := n.parts + [Escape(baseName)])
  }

  function Up(n: Name): Name {
    n.(parts := Pop(n.parts))
  }

  lemma RenderChild(n: Name, baseName: seq<byte>)
    requires n.Valid() && NulFree(baseName)
    ensures Child(n, baseName).Valid() && Child(n, baseName).Readable()
    ensures Child(n, baseName).Render() == (n.root + Path(n.parts)) + ([SLASH] + Escape(baseName))
  {
    EscapeIsValid(baseName);
    hide Escape, ValidPart, Path;
    var below := Child(n, baseName);
    assert below.Valid();
    ValidIsReadable(below);
    assert Pop(below.parts) == n.parts;
    RenderLast(below);
  }

  lemma ChildFacts(key: seq<byte>, baseName: seq<byte>)
    requires key == [] || Canonical(key)
    requires NulFree(baseName)
    ensures Child(Parse(key), baseName).Valid()
    ensures Child(Parse(key), baseName).Render()
         == if key == [SLASH] then key + Escape(baseName) else key + ([SLASH] + Escape(baseName))
  {
    var n := Parse(key);
    if key == [] {
      SplitEmpty();
    }
    RenderChild(n, baseName);
    if key != [] {
      ValidIsReadable(n);
      RenderAtRoot(n);
      assert key == [SLASH] <==> n.root == [] && n.parts == [];
    }
  }

  lemma LevelsOfKey(key: seq<byte>)
    requires key == [] || Canonical(key)
    ensures key == [] ==> Split(key) == []
    ensures Parse(key).parts == [] <==> Split(key) == [] || (|Split(key)| == 1 && key[0] != SLASH)
  {
    if key == [] {
      SplitEmpty();
    } else {
      ValidIsReadable(Parse(key));
      SplitRender(Parse(key));
      RenderStart(Parse(key));
    }
  }

  lemma UpFacts(key: seq<byte>)
    requires Canonical(key) && Parse(key).parts != []
    ensures var n := Parse(key);
      var last := n.parts[|n.parts| - 1];
      && Split(key) != [] && Split(key)[|Split(key)| - 1] == last
      && Up(n).Valid() && Up(n).root == n.root
      && key == (n.root + Path(Up(n).parts)) + ([SLASH] + last)
      && (n.root + Path(Up(n).parts) == if n.root == [] && |n.parts| == 1 then [] else Up(n).Render())
  {
    var n := Parse(key);
    ValidIsReadable(n);
    SplitRender(n);
    RenderLast(n);
  }

  /** The last part as the user gave it; a bare root has none. */
  function BaseOf(n: Name): seq<byte> {
    if n.parts == [] then [] else Unescape(n.parts[|n.parts| - 1])
  }

  lemma {:induction false} UnescapedPartsConcat(a: seq<seq<byte>>, b: seq<seq<byte>>)
    ensures UnescapedParts(a + b) == UnescapedParts(a) + UnescapedParts(b)
  {
    hide *;
    if a == [] {
      UnescapedNil();
      assert a + b == b && [] + UnescapedParts(b) == UnescapedParts(b);
    } else {
      var rest := a[1..];
      UnescapedPartsConcat(rest, b);
      assert a == [a[0]] + rest;
      Assoc([a[0]], rest, b);
      UnescapedHead(a[0], rest);
      UnescapedHead(a[0], rest + b);
      Assoc(Unescape(a[0]) + [NUL], UnescapedParts(rest), UnescapedParts(b));
    }
  }

  lemma UnescapedHead(part: seq<byte>, rest: seq<seq<byte>>)
    ensures UnescapedParts([part] + rest) == (Unescape(part) + [NUL]) + UnescapedParts(rest)
  {
    assert ([part] + rest)[1..] == rest;
  }

  lemma UnescapedOne(part: seq<byte>)
    ensures UnescapedParts([part]) == Unescape(part) + [NUL]
  {
    assert [part][1..] == [];
  }

  lemma {:induction false} UnescapedEndsInNul(parts: seq<seq<byte>>)
    requires parts != []
    ensures UnescapedParts(parts) != [] && UnescapedParts(parts)[|UnescapedParts(parts)| - 1] == NUL
  {
    if |parts| > 1 {
      UnescapedEndsInNul(parts[1..]);
    }
  }

  /** The unescaped name ends in its last part, and a NUL stands before that. */
  lemma UnescapedLast(key: seq<byte>, ukey: seq<byte>) returns (pre: seq<byte>, last: seq<byte>)
    requires if key == [] then |ukey| == 1 else Canonical(key) && NulFree(key) && ukey == UnescapedName(key)
    ensures 0 < |ukey| <= |key| + 1 && ukey[..|ukey| - 1] == pre + last
    ensures NulFree(last) && (pre != [] ==> pre[|pre| - 1] == NUL)
    ensures Parse(key).parts != [] ==> pre != [] && last == BaseOf(Parse(key))
    ensures Parse(key).parts == [] ==>
      pre == [] && (last == [] || |ukey| == |key| + 1) && BaseOf(Parse(key)) == []
  {
    var n := Parse(key);
    if key == [] {
      SplitEmpty();
      return [], [];
    }
    ValidIsReadable(n);
    UnescapedNameLength(key);
    if n.parts == [] {
      pre, last := RootUnescapedSplit(n);
      return;
    }
    hide UnescapedName, Unescape, Split, Name.Valid, Name.Render;
    pre := UnescapedFront(n);
    last := BaseOf(n);
    assert ukey == pre + (last + [NUL]);
  }

  /** Everything in the unescaped name before the last part. */
  lemma UnescapedFront(n: Name) returns (pre: seq<byte>)
    requires n.Valid() && n.parts != []
    ensures pre != [] && pre[|pre| - 1] == NUL && NulFree(BaseOf(n))
    ensures UnescapedName(n.Render()) == pre + (BaseOf(n) + [NUL])
  {
    hide *;
    var part := LastPart(n);
    ValidIsReadable(n);
    SplitRender(n);
    RenderStart(n);
    UnescapeNulFree(part);
    var front, lead := FrontLevels(n);
    UnescapedPartsConcat(front, [part]);
    UnescapedOne(part);
    pre := lead + UnescapedParts(front);
    if front == [] {
      UnescapedNil();
    } else {
      UnescapedEndsInNul(front);
    }
    UnescapedNameOf(n.Render());
    Assoc(lead, UnescapedParts(front), Unescape(part) + [NUL]);
  }

  lemma LastPart(n: Name) returns (part: seq<byte>)
    requires n.Valid() && n.parts != []
    ensures NulFree(part) && BaseOf(n) == Unescape(part) && part == n.parts[|n.parts| - 1]
  {
    part := n.parts[|n.parts| - 1];
  }

  lemma FrontLevels(n: Name) returns (front: seq<seq<byte>>, lead: seq<byte>)
    requires n.parts != []
    ensures n.Levels() == front + [n.parts[|n.parts| - 1]]
    ensures lead == if n.root == [] then [NUL] else []
    ensures lead != [] || front != []
  {
    front := n.Levels()[..|n.Levels()| - 1];
    lead := if n.root == [] then [NUL] else [];
  }

  lemma UnescapedNameOf(key: seq<byte>)
    requires key != []
    ensures UnescapedName(key) == (if key[0] == SLASH then [NUL] else []) + UnescapedParts(Split(key))
  {
  }

  lemma RootUnescapedSplit(n: Name) returns (pre: seq<byte>, last: seq<byte>)
    requires n.Valid() && n.parts == []
    ensures pre == [] && NulFree(last)
    ensures UnescapedName(n.Render()) == last + [NUL]
    ensures last == n.root
  {
    ValidIsReadable(n);
    SplitRender(n);
    RenderStart(n);
    pre, last := [], n.root;
    if n.root == [] {
      UnescapedNil();
    } else {
      NamespaceIsPart(n.root);
      RootParts(n.root);
    }
  }

  predicate HasRoot(newName: seq<byte>) {
    NamespaceOf(newName) != Empty && NamespaceOf(newName) != Meta
  }

  /** What follows the namespace and its slash. */
  function Tail(newName: seq<byte>): seq<byte> {
    var n := |RootOf(NamespaceOf(newName))|;
    if HasRoot(newName) && n < |newName| then newName[n + 1..] else []
  }

  function SetTo(newName: seq<byte>): Name {
    Added(Name(RootOf(NamespaceOf(newName)), []), Tail(newName))
  }

  /** A name that begins with a slash is cascading. */
  lemma SetCascading(newName: seq<byte>)
    requires newName != [] && newName[0] == SLASH
    ensures NamespaceOf(newName) == Cascading && SetTo(newName) == Added(Name([], []), newName[1..])
  {
    hide Added;
    if |newName| == 1 {
      AddNothing(Name([], []));
    }
  }

  /** A namespace may stand alone or with a slash behind it. */
  lemma SetNamespaced(newName: seq<byte>, root: seq<byte>)
    requires IsNamespace(root) && (newName == root || root + [SLASH] <= newName)
    ensures HasRoot(newName) && RootOf(NamespaceOf(newName)) == root
    ensures SetTo(newName) == if newName == root then Name(root, []) else Added(Name(root, []), newName[|root| + 1..])
  {
    hide Added;
    NamespaceFound(newName, root);
    AddNothing(Name(root, []));
    if newName != root {
      assert newName[|root|] == (root + [SLASH])[|root|];
    }
  }

  lemma NamespaceFound(newName: seq<byte>, root: seq<byte>)
    requires IsNamespace(root) && (newName == root || root + [SLASH] <= newName)
    ensures HasRoot(newName) && RootOf(NamespaceOf(newName)) == root
  {
    assert StartsWith(newName, root) && newName[0] == root[0] && newName[1] == root[1];
    FirstTwoBytes(newName, SPEC);
    FirstTwoBytes(newName, PROC);
    FirstTwoBytes(newName, DIR);
    FirstTwoBytes(newName, USER);
    FirstTwoBytes(newName, SYSTEM);
  }

  /** Any other name has no namespace that keySetName accepts. */
  lemma NoNamespace(newName: seq<byte>)
    ensures NamespaceOf(newName) == Empty <==> newName == []
    ensures NamespaceOf(newName) == Meta <==>
      && newName != [] && newName[0] != SLASH
      && newName != SPEC && !(SPEC + [SLASH] <= newName) && newName != PROC && !(PROC + [SLASH] <= newName)
      && newName != DIR && !(DIR + [SLASH] <= newName) && newName != USER && !(USER + [SLASH] <= newName)
      && newName != SYSTEM && !(SYSTEM + [SLASH] <= newName)
  {
  }

  /** "." levels in a name that is set change nothing, and ".." does not lead out of the namespace. */
  lemma SetNameDots(root: seq<byte>, a: seq<byte>, b: seq<byte>)
    requires (root == [] || IsNamespace(root)) && TrailingBackslashes(a) % 2 == 0
    ensures SetTo(root + ([SLASH] + ([DOT] + ([SLASH] + b)))) == SetTo(root + ([SLASH] + b))
    ensures
      SetTo(root + ([SLASH] + (a + ([SLASH] + ([DOT] + ([SLASH] + b))))))
      == SetTo(root + ([SLASH] + (a + ([SLASH] + b))))
    ensures SetTo(root + ([SLASH] + (a + ([SLASH] + [DOT])))) == SetTo(root + ([SLASH] + a))
    ensures SetTo(root + ([SLASH] + ([DOT, DOT] + ([SLASH] + b)))) == SetTo(root + ([SLASH] + b))
  {
    hide Added, SetTo;
    var n := Name(root, []);
    DotsChangeNothing(n, a, b);
    UpFromRoot(root, b);
    SetToBehind(root, [DOT] + ([SLASH] + b));
    SetToBehind(root, b);
    SetToBehind(root, a + ([SLASH] + ([DOT] + ([SLASH] + b))));
    SetToBehind(root, a + ([SLASH] + b));
    SetToBehind(root, a + ([SLASH] + [DOT]));
    SetToBehind(root, a);
    SetToBehind(root, [DOT, DOT] + ([SLASH] + b));
  }

  lemma SetToBehind(root: seq<byte>, tail: seq<byte>)
    requires root == [] || IsNamespace(root)
    ensures SetTo(root + ([SLASH] + tail)) == Added(Name(root, []), tail)
  {
    hide Added, SetTo;
    var newName := root + ([SLASH] + tail);
    assert newName[|root| + 1..] == tail && root + [SLASH] <= newName;
    if root == [] {
      assert newName == [SLASH] + tail;
      SetCascading(newName);
    } else {
      SetNamespaced(newName, root);
    }
  }

  predicate OnlySlashes(s: seq<byte>) {
    forall i | 0 <= i < |s| :: s[i] == SLASH
  }

  lemma RootFacts(newName: seq<byte>)
    requires HasRoot(newName)
    ensures var root := RootOf(NamespaceOf(newName));
      && Name(root, []).Valid() && newName != []
      && newName[..if root == [] then 1 else |root|] == Name(root, []).Render()
      && (root == [] <==> NamespaceOf(newName) == Cascading)
      && |root| <= |newName|
      && (|root| < |newName| ==> newName[|root|] == SLASH && Tail(newName) == newName[|root| + 1..])
  {
  }

  lemma {:induction false} SplitSlashes(s: seq<byte>)
    requires OnlySlashes(s)
    ensures Split(s) == []
  {
    if s != [] {
      SplitSlashes(s[1..]);
      SplitAfterSlash(s[1..]);
      assert [SLASH] + s[1..] == s;
    }
  }

  /** A bare root unescapes to itself, except that "/" is one NUL. */
  lemma RootUnescaped(n: Name)
    requires n.Valid() && n.parts == []
    ensures |UnescapedName(n.Render())| == if n.root == [] then 1 else |n.Render()| + 1
  {
    var _, last := RootUnescapedSplit(n);
  }

  lemma RootParts(root: seq<byte>)
    requires IsNamespace(root)
    ensures UnescapedParts([root] + []) == root + [NUL]
  {
    NamespaceIsPart(root);
    PlainUnescape(root);
    assert LeadingBackslashes(root) == 0;
    assert ([root] + [])[1..] == [];
  }

  lemma {:induction false} PlainUnescape(s: seq<byte>)
    requires SLASH !in s && BACKSLASH !in s
    ensures UnescapeFrom(s, 0) == s
  {
    if s != [] {
      PlainUnescape(s[1..]);
      assert Repeat(BACKSLASH, 0) + ([s[0]] + s[1..]) == s;
    }
  }

  lemma SlashesAddNothing(n: Name, newName: seq<byte>)
    requires HasRoot(newName) && n == Name(RootOf(NamespaceOf(newName)), [])
    requires |newName| == |n.Render()| || OnlySlashes(newName[|n.root|..])
    ensures SetTo(newName) == n && (Tail(newName) == [] || Accepted(Tail(newName)))
  {
    RootFacts(newName);
    SplitSlashes(Tail(newName));
    if Tail(newName) != [] && |Tail(newName)| > 1 {
      assert Tail(newName)[|Tail(newName)| - 1] == SLASH;
    }
  }

  lemma {:induction false} CanonicalNulFree(n: Name)
    requires n.Valid()
    ensures NulFree(n.Render())
  {
    PathNulFree(n.parts);
    if n.root != [] {
      NamespaceIsPart(n.root);
    }
  }

  lemma RenderFacts(n: Name)
    requires n.Valid()
    ensures n.Readable() && n.Render() != []
    ensures Canonical(n.Render()) && NulFree(n.Render()) && WellEscapedParts(Split(n.Render()))
  {
    ValidIsReadable(n);
    ParseRender(n);
    SplitRender(n);
    RenderStart(n);
    CanonicalNulFree(n);
  }

  lemma {:induction false} PathNulFree(parts: seq<seq<byte>>)
    requires ValidParts(parts)
    ensures NulFree(Path(parts))
  {
    if parts != [] {
      PathNulFree(parts[1..]);
    }
  }

  /** A rendered name, with its last part taken off. */
  lemma RenderLast(n: Name)
    requires n.Readable() && n.parts != []
    ensures var last := n.parts[|n.parts| - 1];
      n.Render() == (n.root + Path(Pop(n.parts))) + ([SLASH] + last)
  {
    var last := n.parts[|n.parts| - 1];
    assert n.parts == Pop(n.parts) + [last];
    PathAppend(Pop(n.parts), [last]);
    assert Path([last]) == [SLASH] + (last + Path([])) == [SLASH] + last;
  }

  /** A rendered name, with one more part. */
  lemma RenderPush(n: Name, part: seq<byte>)
    ensures n.(parts := n.parts + [part]).Render()
         == if n.root == [] && n.parts == [] then n.Render() + part else n.Render() + ([SLASH] + part)
  {
    PathAppend(n.parts, [part]);
    assert Path([part]) == [SLASH] + (part + Path([])) == [SLASH] + part;
    assert n.root + (Path(n.parts) + ([SLASH] + part)) == (n.root + Path(n.parts)) + ([SLASH] + part);
  }

  /** elektraUnescapeKeyName: the unescaped parts, NUL-terminated one after the other. */
  method UnescapeName(source: seq<byte>, dest: array<byte>) returns (size: nat)
    requires NulFree(source) && WellEscapedParts(Split(source))
    requires dest.Length >= |source| + 1
    modifies dest
    ensures size <= dest.Length && dest[..size] == UnescapedName(source)
  {
    UnescapedNameLength(source);
    ghost var parts := UnescapedParts(Split(source));
    assert UnescapedName(source) == (if source != [] && source[0] == SLASH then [NUL] else []) + parts;
    hide *;
    size := 0;
    if source != [] && source[0] == SLASH {
      size := WriteByte(dest, 0, NUL);
    }
    assert dest[..size] == if source != [] && source[0] == SLASH then [NUL] else [];
    size := UnescapeLevels(source, dest, size);
  }

  method UnescapeLevels(source: seq<byte>, dest: array<byte>, start: nat) returns (size: nat)
    requires WellEscapedParts(Split(source))
    requires start + |UnescapedParts(Split(source))| <= dest.Length
    modifies dest
    ensures size <= dest.Length && dest[..size] == old(dest[..start]) + UnescapedParts(Split(source))
  {
    hide *;
    size := start;
    var pos := 0;
    ghost var written := dest[..size];
    ghost var all := written + UnescapedParts(Split(source));
    assert source[0..] == source;
    while true
      invariant 0 <= pos <= |source| && size <= dest.Length && dest[..size] == written
      invariant written + UnescapedParts(Split(source[pos..])) == all
      invariant WellEscapedParts(Split(source[pos..]))
      decreases |source| - pos
    {
      var sp, len := OneLevel(source, pos);
      if sp == |source| {
        break;
      }
      UnescapedCons(written, source[sp..sp + len], Split(source[sp + len..]));
      size := AppendUnescaped(source[sp..sp + len], dest, size);
      written := dest[..size];
      pos := sp + len;
    }
    UnescapedNil();
  }

  lemma UnescapedNil()
    ensures UnescapedParts([]) == []
  {
  }

  lemma UnescapedCons(written: seq<byte>, part: seq<byte>, rest: seq<seq<byte>>)
    ensures written + UnescapedParts([part] + rest) == (written + (Unescape(part) + [NUL])) + UnescapedParts(rest)
    ensures WellEscapedParts([part] + rest) ==> part != [] && WellEscaped(part, 0) && WellEscapedParts(rest)
  {
    var all := [part] + rest;
    assert all[0] == part && all[1..] == rest;
    UnescapedHead(part, rest);
    Assoc(written, Unescape(part) + [NUL], UnescapedParts(rest));
    if WellEscapedParts(all) {
      assert forall i | 0 <= i < |rest| :: rest[i] == all[i + 1];
    }
  }

  method AppendUnescaped(part: seq<byte>, dest: array<byte>, start: nat) returns (dp: nat)
    requires part != [] && WellEscaped(part, 0)
    requires start + |Unescape(part)| + 1 <= dest.Length
    modifies dest
    ensures dp == start + |Unescape(part)| + 1
    ensures dest[..dp] == old(dest[..start]) + (Unescape(part) + [NUL])
  {
    hide *;
    var done;
    done, dp := UnescapePartBegin(part, dest, start);
    if !done {
      dp := UnescapePart(part, dest, dp);
    }
    dp := WriteByte(dest, dp, NUL);
  }

  /** keyBaseName returns what keyAddBaseName was given, for every NUL-free string. */
  lemma BaseNameRoundTrip(n: Name, baseName: seq<byte>)
    ensures BaseOf(Child(n, baseName)) == baseName
    ensures Up(Child(n, baseName)) == n
  {
    UnescapeEscape(baseName);
    assert Pop(n.parts + [Escape(baseName)]) == n.parts;
  }

  /** Adding a base name is adding its escaped form as a name; the base name is what the last part unescapes to. */
  lemma ChildIsAdded(n: Name, baseName: seq<byte>, part: seq<byte>)
    requires NulFree(baseName)
    ensures Child(n, baseName) == Added(n, Escape(baseName))
    ensures BaseOf(Name(n.root, [])) == [] && BaseOf(Name(n.root, n.parts + [part])) == Unescape(part)
    ensures Up(Name(n.root, n.parts + [part])) == n && Up(Name(n.root, [])) == Name(n.root, [])
  {
    EscapeIsValid(baseName);
    AddLevel(n, Escape(baseName));
    assert Pop(n.parts + [part]) == n.parts;
  }

  /** Setting a name that is already canonical stores exactly that name. */
  lemma SetCanonicalName(n: Name)
    requires n.Valid()
    ensures HasRoot(n.Render()) && RootOf(NamespaceOf(n.Render())) == n.root
    ensures SetTo(n.Render()) == n
  {
    hide *;
    CanonicalNamespace(n);
    ValidIsReadable(n);
    var tail := TailOfRendered(n);
    SplitPath(n.parts);
    SplitAfterSlash(tail);
    SplitEmpty();
    WalkValidParts([], n.parts);
    assert [] + n.parts == n.parts;
    SetToUnfold(n.Render());
  }

  lemma SetToUnfold(newName: seq<byte>)
    ensures SetTo(newName) == Name(RootOf(NamespaceOf(newName)), Walk([], Split(Tail(newName))))
  {
  }

  lemma TailOfRendered(n: Name) returns (tail: seq<byte>)
    requires n.Valid()
    ensures tail == Tail(n.Render()) && ValidParts(n.parts) && WellEscapedParts(n.parts)
    ensures if n.parts == [] then tail == [] else Path(n.parts) == [SLASH] + tail
  {
    hide NamespaceOf, RootOf, HasRoot, Path, ValidPart, WellEscaped, IsNamespace;
    tail := Tail(n.Render());
    PathStartsWithSlash(n.parts);
    CanonicalNamespace(n);
    ValidIsReadable(n);
    assert (n.root + Path(n.parts))[|n.root|..] == Path(n.parts);
  }

  /** The first two bytes tell the namespaces apart. */
  lemma FirstTwoBytes(name: seq<byte>, root: seq<byte>)
    ensures IsNamespace(root) && StartsWith(name, root) ==>
      |name| >= 2 && |root| >= 2 && name[0] == root[0] && name[1] == root[1]
  {
    if IsNamespace(root) && StartsWith(name, root) && name != root {
      assert (root + [SLASH])[0] == root[0] && (root + [SLASH])[1] == root[1];
    }
  }

  lemma CanonicalNamespace(n: Name)
    requires n.Valid()
    ensures HasRoot(n.Render()) && RootOf(NamespaceOf(n.Render())) == n.root
    ensures n.Render() == if n.root == [] && n.parts == [] then [SLASH] else n.root + Path(n.parts)
  {
    var name := n.Render();
    PathStartsWithSlash(n.parts);
    if n.root == [] {
      assert [] + Path(n.parts) == Path(n.parts);
    } else {
      assert forall i | 0 <= i < |n.root| :: name[i] == n.root[i];
      assert StartsWith(name, n.root) by {
        if n.parts == [] {
          assert name == n.root;
        } else {
          assert name[..|n.root| + 1] == n.root + [SLASH];
        }
      }
      FirstTwoBytes(name, n.root);
      FirstTwoBytes(name, RootOf(NamespaceOf(name)));
    }
  }

  lemma CanonicalIs(key: seq<byte>)
    requires Canonical(key)
    ensures Parse(key).Valid() && key == Parse(key).Render()
  {
  }

  /** The sum with an accepted name is canonical, and the loop meets well escaped levels only. */
  lemma SumIsValid(n: Name, newName: seq<byte>)
    requires n.Valid() && newName != [] && NulFree(newName) && Accepted(newName) && !Stray(newName)
    ensures Added(n, newName).Valid() && WellEscapedParts(Split(newName))
  {
    hide Added, Split, TrailingBackslashes, Name.Valid, WellEscapedParts, NulFree;
    AcceptedIsRight(newName);
    ParityChanges(|newName|);
    TrailingOfOnlyBackslashes(newName);
    AddedIsCanonical(n, newName);
    SplitIsWellEscaped(newName);
  }

  lemma DotsAccepted()
    ensures Accepted([DOT]) && Accepted([DOT, DOT])
  {
    assert [DOT, DOT][1..] == [DOT];
  }

  lemma AddDots(n: Name, newName: seq<byte>)
    ensures newName == [DOT] || (newName == [DOT, DOT] && n.parts == []) ==> Added(n, newName) == n
  {
    hide Added;
    if newName == [DOT] || newName == [DOT, DOT] {
      NoEscapesIsWellEscaped(newName);
      AddLevel(n, newName);
    }
  }

  class NamedKey {
    var named: bool            // key->key is allocated
    var key: seq<byte>         // without its terminator
    var ukey: seq<byte>
    var readOnly: bool         // KEY_FLAG_RO_NAME

    /** The escaped name is in canonical form, or empty. */
    ghost predicate ValidName()
      reads this
    {
      named && key != [] ==> Canonical(key) && NulFree(key)
    }

    ghost predicate Valid()
      reads this
    {
      ValidName() && (named ==> if key == [] then |ukey| <= 1 else ukey == UnescapedName(key))
    }

    constructor ()
      ensures Valid() && !named && !readOnly
    {
      named, key, ukey, readOnly := false, [], [], false;
    }

    /** keyDup: a key with the same name, which may be changed. */
    constructor Dup(n: Name)
      requires n.Valid()
      ensures Valid() && named && key == n.Render() && !readOnly
    {
      named, key, ukey, readOnly := true, n.Render(), UnescapedName(n.Render()), false;
      new;
      RenderFacts(n);
    }

    /** elektraFinalizeName, on a name already in canonical form. */
    method FinalizeName(ghost n: Name)
      requires n.Valid() && key == n.Render()
      modifies this`ukey
      ensures Canonical(key) && NulFree(key) && ukey == UnescapedName(key)
    {
      assert Canonical(key) && NulFree(key) && WellEscapedParts(Split(key)) by {
        RenderFacts(n);
      }
      hide Canonical, UnescapedName, WellEscapedParts;
      var dest := new byte[|key| + 1];
      var size := UnescapeName(key, dest);
      ukey := dest[..size];
    }

    method RemoveKeyName()
      modifies this
      ensures !named && readOnly == old(readOnly)
    {
      named, key, ukey := false, [], [];
    }

    /** elektraRemoveOneLevel. */
    method RemoveOneLevel(ghost n: Name, wasAtRoot: bool) returns (avoidSlash: bool)
      requires n.Readable() && key == n.Render()
      requires wasAtRoot <==> n.root == [] && n.parts == []
      modifies this`key
      ensures key == n.(parts := Pop(n.parts)).Render()
      ensures avoidSlash <==> n.root == [] && Pop(n.parts) == []
    {
      avoidSlash := wasAtRoot;
      SplitRender(n);
      RenderStart(n);
      var levels, _, last := CountLevels(key);
      if levels > 1 {
        assert n.parts != [] && last == |n.parts[|n.parts| - 1]|;
        RenderLast(n);
        key := key[..|key| - (last + 1)];
        assert key == n.root + Path(Pop(n.parts));
      } else if key[0] == SLASH {
        key := [SLASH];
        avoidSlash := true;
      }
    }

    /** keyAddName: the name becomes the result of walking over the levels of newName. */
    method AddName(newName: seq<byte>) returns (ret: int)
      requires ValidName() && NulFree(newName) && !Stray(newName)
      modifies this
      ensures ValidName() && named == old(named) && readOnly == old(readOnly)
      ensures old(Valid()) || (key != [] && newName != [] && ret >= 0) ==> Valid()
      ensures readOnly || !named || old(key) == [] ==> ret == -1 && key == old(key)
      ensures !readOnly && named && old(key) != [] && newName == [] ==> ret == 0 && key == old(key)
      ensures newName != [] && !Accepted(newName) ==> ret == -1 && key == old(key)
      ensures !readOnly && named && old(key) != [] && newName != [] && Accepted(newName) ==>
        && key == Added(Parse(old(key)), newName).Render() && key != []
        && ret == if |key| == |old(key)| then 0 else |key| + 1
      ensures !readOnly && named && old(key) != [] && newName == [DOT] ==> ret == 0 && key == old(key)
      ensures !readOnly && named && old(key) != [] && newName == [DOT, DOT] && Parse(old(key)).parts == [] ==>
        ret == 0 && key == old(key)
    {
      hide Added, Parse, Canonical, UnescapedName, WellEscapedParts, Split, Accepted, Stray, NulFree;
      hide Name.Valid, Name.Readable, Name.Render;
      if readOnly || !named || key == [] {
        return -1;
      }
      if newName == [] {
        return 0;
      }
      DotsAccepted();
      var ok := ValidateKeyName(newName);
      if !ok {
        return -1;
      }
      var origSize := |key|;
      ghost var n := Parse(key);
      CanonicalIs(key);
      SumIsValid(n, newName);
      AddDots(n, newName);
      ghost var sum := Added(n, newName);
      RenderFacts(sum);
      WalkLevels(n, newName);
      FinalizeName(sum);
      ret := if origSize == |key| then 0 else |key| + 1;
    }

    /** The loop of keyAddName. */
    method WalkLevels(ghost n: Name, newName: seq<byte>)
      requires n.Valid() && key == n.Render()
      requires WellEscapedParts(Split(newName))
      modifies this`key
      ensures key == Added(n, newName).Render()
    {
      hide *;
      ValidIsReadable(n);
      RenderStart(n);
      RenderAtRoot(n);
      AddedUnfold(n, newName);
      var avoidSlash := key[0] == SLASH && |key| == 1;
      ghost var stack := n.parts;
      assert newName[0..] == newName;
      var pos := 0;
      while true
        invariant 0 <= pos <= |newName|
        invariant n.(parts := stack).Readable() && key == n.(parts := stack).Render()
        invariant avoidSlash <==> n.root == [] && stack == []
        invariant WellEscapedParts(Split(newName[pos..]))
        invariant Walk(stack, Split(newName[pos..])) == Walk(n.parts, Split(newName))
        decreases |newName| - pos
      {
        var p, size := OneLevel(newName, pos);
        if p == |newName| {
          WalkNothing(stack);
          break;
        }
        pos := p + size;
        var level := newName[p..pos];
        WalkOne(n, stack, level, Split(newName[pos..]));
        avoidSlash := ApplyLevel(n.(parts := stack), avoidSlash, level);
        stack := Step(stack, level);
      }
    }

    method ApplyLevel(ghost n: Name, wasAtRoot: bool, level: seq<byte>) returns (avoidSlash: bool)
      requires n.Readable() && key == n.Render()
      requires wasAtRoot <==> n.root == [] && n.parts == []
      modifies this`key
      ensures key == n.(parts := Step(n.parts, level)).Render()
      ensures avoidSlash <==> n.root == [] && Step(n.parts, level) == []
    {
      avoidSlash := wasAtRoot;
      if level == [DOT] {
        return;
      } else if level == [DOT, DOT] {
        avoidSlash := RemoveOneLevel(n, wasAtRoot);
      } else {
        AppendLevel(n, wasAtRoot, level);
        avoidSlash := false;
      }
    }

    /** keySetName without an owner: the namespace, then what keyAddName makes of the rest. */
    method SetName(newName: seq<byte>) returns (ret: int)
      requires Valid() && NulFree(newName) && !(USER + [COLON] <= newName)
      requires !Stray(Tail(newName))
      modifies this
      ensures Valid() && readOnly == old(readOnly)
      ensures readOnly ==> ret == -1 && named == old(named) && key == old(key) && ukey == old(ukey)
      ensures !readOnly && NamespaceOf(newName) == Empty ==> ret == 0 && named && key == [] && ukey == [NUL]
      ensures !readOnly && NamespaceOf(newName) == Meta ==> ret == -1 && !named
      ensures !readOnly && Tail(newName) != [] && !Accepted(Tail(newName)) ==> ret == -1 && !named
      ensures !readOnly && HasRoot(newName) && (Tail(newName) == [] || Accepted(Tail(newName))) ==>
        && named && key == SetTo(newName).Render()
        && ret == if newName == [SLASH] then 1 else |key| + 1
    {
      hide Split, UnescapedName, Canonical, Parse, Added, Accepted, Stray, StartsWith, Name.Render, Name.Valid;
      if readOnly {
        return -1;
      }
      RemoveKeyName();
      var ns := NamespaceOf(newName);
      if ns == Empty {
        named, key, ukey := true, [], [NUL];
        return 0;
      } else if ns == Meta {
        return -1;
      }
      var root := RootOf(ns);
      ghost var start := Name(root, []);
      RootFacts(newName);
      named, key := true, newName[..if ns == Cascading then 1 else |root|];
      if |newName| == |key| || OnlySlashes(newName[|root|..]) {
        FinalizeName(start);
        SlashesAddNothing(start, newName);
        RootUnescaped(start);
        return if |newName| == |key| then |ukey| else |key| + 1;
      }
      RenderFacts(start);
      ParseRender(start);
      var added := AddName(newName[|root| + 1..]);
      if added == -1 {
        RemoveKeyName();
        return -1;
      }
      return |key| + 1;
    }

    /** keyAddBaseName: one more part, whatever bytes it consists of. */
    method AddBaseName(baseName: seq<byte>) returns (ret: int)
      requires Valid() && NulFree(baseName)
      modifies this
      ensures Valid() && named == old(named) && readOnly == old(readOnly)
      ensures readOnly || !named ==> ret == -1 && key == old(key) && ukey == old(ukey)
      ensures !readOnly && named ==>
        key == Child(Parse(old(key)), baseName).Render() && key != [] && ret == |key| + 1
    {
      if readOnly || !named {
        return -1;
      }
      var escaped := EscapedCopy(baseName);
      ghost var n := Parse(key);
      ChildFacts(key, baseName);
      if key == [SLASH] {
        key := key + escaped;
      } else {
        key := key + ([SLASH] + escaped);
      }
      FinalizeName(Child(n, baseName));
      RenderFacts(Child(n, baseName));
      ret := |key| + 1;
    }

    /** keySetBaseName: another last part, or none at all when baseName is null. */
    method SetBaseName(baseName: Option<seq<byte>>) returns (ret: int)
      requires Valid() && (baseName.Some? ==> NulFree(baseName.value))
      modifies this
      ensures Valid() && named == old(named) && readOnly == old(readOnly)
      ensures readOnly || !named || Parse(old(key)).parts == [] ==> ret == -1 && key == old(key) && ukey == old(ukey)
      ensures !readOnly && named && Parse(old(key)).parts != [] ==>
        var n := Parse(old(key));
        && ret == |key| + 1
        && (baseName.Some? ==> key == Child(Up(n), baseName.value).Render())
        && (baseName.None? ==> key == if n.root == [] && |n.parts| == 1 then [] else Up(n).Render())
    {
      hide Split, UnescapedName, Canonical, Parse, Escape, Name.Render, Name.Valid, Path, Child, Up;
      if readOnly || !named {
        return -1;
      }
      var levels, start, last := CountLevels(key);
      LevelsOfKey(key);
      if levels == 0 || start == 0 {
        return -1;
      }
      ghost var n := Parse(key);
      UpFacts(key);
      ghost var front := n.root + Path(Up(n).parts);
      key := key[..|key| - (last + 1)];
      assert key == front;
      if baseName.None? {
        if key == [] {
          ukey := [];
        } else {
          FinalizeName(Up(n));
        }
        return |key| + 1;
      }
      var escaped := EscapedCopy(baseName.value);
      RenderChild(Up(n), baseName.value);
      key := key + ([SLASH] + escaped);
      FinalizeName(Child(Up(n), baseName.value));
      ret := |key| + 1;
    }

    /** keyBaseName: walks back from the terminator of the unescaped name to the NUL before. */
    method BaseName() returns (baseName: seq<byte>)
      requires Valid() && (named && key == [] ==> |ukey| == 1)
      ensures baseName == if named then BaseOf(Parse(key)) else []
    {
      hide UnescapedName, Canonical, Parse, BaseOf, NulFree;
      if !named {
        return [];
      }
      ghost var pre, last := UnescapedLast(key, ukey);
      var buffer := key + [NUL] + ukey;
      BufferLayout(key, ukey, pre, last);
      var base := ScanBack(buffer, |key| + 1 + |pre|, last);
      if base != |ukey| {
        baseName := buffer[base..|buffer| - 1];
      } else {
        baseName := [];
      }
    }

    method AppendLevel(ghost n: Name, avoidSlash: bool, level: seq<byte>)
      requires key == n.Render()
      requires avoidSlash <==> n.root == [] && n.parts == []
      modifies this`key
      ensures key == n.(parts := n.parts + [level]).Render()
    {
      RenderPush(n, level);
      if !avoidSlash {
        key := key + [SLASH];
      }
      key := key + level;
    }
  }

  lemma RenderAtRoot(n: Name)
    requires n.Readable()
    ensures n.Render() != []
    ensures n.root == [] && n.parts == [] <==> n.Render()[0] == SLASH && |n.Render()| == 1
  {
    RenderStart(n);
    if n.parts != [] {
      assert |Path(n.parts)| > 1;
    }
  }

  lemma AddedUnfold(n: Name, newName: seq<byte>)
    ensures Added(n, newName) == n.(parts := Walk(n.parts, Split(newName)))
  {
  }

  lemma WalkNothing(stack: seq<seq<byte>>)
    ensures Walk(stack, []) == stack
  {
  }

  lemma WalkOne(n: Name, stack: seq<seq<byte>>, level: seq<byte>, rest: seq<seq<byte>>)
    requires n.(parts := stack).Readable() && WellEscapedParts([level] + rest)
    ensures Walk(stack, [level] + rest) == Walk(Step(stack, level), rest)
    ensures n.(parts := Step(stack, level)).Readable() && WellEscapedParts(rest)
  {
    var all := [level] + rest;
    assert all[0] == level && all[1..] == rest;
    assert forall i | 0 <= i < |rest| :: rest[i] == all[i + 1];
  }

  lemma BufferLayout(key: seq<byte>, ukey: seq<byte>, pre: seq<byte>, last: seq<byte>)
    requires ukey != [] && ukey[..|ukey| - 1] == pre + last
    requires pre != [] ==> pre[|pre| - 1] == NUL
    ensures var buffer := key + [NUL] + ukey;
      var target := |key| + 1 + |pre|;
      target + |last| == |buffer| - 1 && buffer[target - 1] == NUL && buffer[target..|buffer| - 1] == last
  {
    var buffer := key + [NUL] + ukey;
    var target := |key| + 1 + |pre|;
    assert buffer[target..|buffer| - 1] == ukey[..|ukey| - 1][|pre|..];
    if pre != [] {
      assert buffer[target - 1] == ukey[..|ukey| - 1][|pre| - 1];
    }
  }

  /** The loop of keyBaseName: back from the last byte to the NUL before it. */
  method ScanBack(buffer: seq<byte>, ghost target: nat, ghost last: seq<byte>) returns (base: nat)
    requires 0 < target && target + |last| == |buffer| - 1
    requires buffer[target - 1] == NUL && NulFree(last) && buffer[target..|buffer| - 1] == last
    ensures base == target
  {
    base := |buffer| - 1;
    var p := base - 1;
    assert forall i | target <= i < |buffer| - 1 :: buffer[i] == last[i - target];
    while buffer[p] != NUL
      invariant 0 <= p && target <= base == p + 1 < |buffer|
      decreases p
    {
      base := p;
      p := p - 1;
    }
  }

  /** elektraValidateKeyName, walking backwards from the last byte and stopping at the first. */
  method ValidateKeyName(name: seq<byte>) returns (ok: bool)
    requires name != []
    ensures ok == Accepted(name)
  {
    var escapeCount, size := 0, |name| - 1;
    assert name[1..size + 1] == name[1..];
    while size > 0 && name[size] == BACKSLASH
      invariant 0 <= size < |name| && escapeCount >= 0
      invariant escapeCount + TrailingBackslashes(name[1..size + 1]) == TrailingBackslashes(name[1..])
    {
      assert name[1..size + 1][..size - 1] == name[1..size];
      escapeCount := escapeCount + 1;
      size := size - 1;
    }
    ok := escapeCount % 2 == 0;
  }

  /** The loop of elektraRemoveOneLevel and of keySetBaseName: where the last level is. */
  method CountLevels(name: seq<byte>) returns (levels: nat, start: nat, last: nat)
    ensures levels == |Split(name)|
    ensures levels > 0 ==> start + last <= |name| && name[start..start + last] == Split(name)[levels - 1]
    ensures levels > 0 ==> (start == 0 <==> levels == 1 && name[0] != SLASH)
  {
    hide *;
    levels, start, last := 0, 0, 0;
    var pos := 0;
    ghost var seen: seq<seq<byte>> := [];
    assert name[0..] == name && Split(name) == seen + Split(name);
    while true
      invariant 0 <= pos <= |name| && (levels == 0 ==> pos == 0)
      invariant levels == |seen| && Split(name) == seen + Split(name[pos..])
      invariant levels > 0 ==> start + last == pos && 0 < last && name[start..start + last] == seen[levels - 1]
      invariant levels > 0 ==> (start == 0 <==> levels == 1 && name[0] != SLASH)
      decreases |name| - pos
    {
      var x, size := OneLevel(name, pos);
      if x == |name| {
        break;
      }
      seen := seen + [name[x..x + size]];
      start, last := x, size;
      levels := levels + 1;
      pos := x + size;
    }
  }
}
