/** keyIsBelow, keyIsBelowOrSame and keyIsDirectBelow (keytest.c) and what they decide. */
module Below {
  import opened Bytes
  import opened Escaping
  import opened Levels
  import opened KeyNames
  import opened NamedKeys
  import opened KeyOrder

  /** strlen of the first string in a NUL-separated name. */
  function FirstNul(s: seq<byte>): (n: nat)
    ensures n <= |s|
  {
    if s == [] || s[0] == NUL then 0 else 1 + FirstNul(s[1..])
  }

  /** The two conditions keyIsBelow combines: escaped prefix, and a part ending there in the unescaped name. */
  predicate NamesBelow(keyname: seq<byte>, ukeysize: nat, checkname: seq<byte>, ucheckname: seq<byte>) {
    keyname <= checkname && 0 < ukeysize < |ucheckname| && ucheckname[ukeysize - 1] == NUL
  }

  function KeyIsBelow(key: Name, check: Name): bool
    requires key.Render() != [] && check.Render() != []
  {
    var keyname, checkname := key.Render(), check.Render();
    var ukeyname, ucheckname := Unescaped(key), Unescaped(check);
    if checkname == [SLASH] then false
    else if keyname == [SLASH] then checkname[0] == SLASH || SLASH in checkname
    else if checkname[0] == SLASH then
      if keyname[0] == SLASH then NamesBelow(keyname, |ukeyname|, checkname, ucheckname)
      else
        var size := LevelLength(keyname, 0);
        NamesBelow(keyname[size..], |ukeyname| - FirstNul(ukeyname), checkname, ucheckname)
    else if keyname[0] == SLASH then
      var size := LevelLength(checkname, 0);
      NamesBelow(keyname, |ukeyname|, checkname[size..], ucheckname[FirstNul(ucheckname)..])
    else NamesBelow(keyname, |ukeyname|, checkname, ucheckname)
  }

  function KeyIsBelowOrSame(key: Name, check: Name): bool
    requires key.Render() != [] && check.Render() != []
  {
    KeyIsBelow(key, check) || key.Render() == check.Render()
  }

  // ---------- unescaping a longer part gives a longer string ----------

  lemma {:induction false} UnescapeAtLeast(e: seq<byte>, run: nat)
    requires e != [] && WellEscaped(e, run)
    ensures |UnescapeFrom(e, run)| >= (run + 2) / 2
    decreases |e|
  {
    if e[0] == BACKSLASH && |e| > 1 {
      UnescapeAtLeast(e[1..], run + 1);
    }
  }

  lemma {:induction false} UnescapeExtends(e: seq<byte>, x: seq<byte>, run: nat)
    requires x != [] && WellEscaped(e, run) && WellEscaped(e + x, run)
    ensures |UnescapeFrom(e, run)| < |UnescapeFrom(e + x, run)|
    decreases |e|
  {
    if e == [] {
      assert e + x == x;
      UnescapeAtLeast(x, run);
    } else {
      assert (e + x)[1..] == e[1..] + x;
      UnescapeExtends(e[1..], x, if e[0] == BACKSLASH then run + 1 else 0);
    }
  }

  /** Only reserved names come out shorter than the plain scan would make them. */
  lemma UnescapeVersusScan(e: seq<byte>)
    requires ValidPart(e)
    ensures var k := LeadingBackslashes(e);
      |Unescape(e)| == if Reserved(e[k..]) then |UnescapeFrom(e, 0)| - 1 else |UnescapeFrom(e, 0)|
  {
    var k := LeadingBackslashes(e);
    if Reserved(e[k..]) {
      UnescapeRun(k, e[k..], 0);
      ReservedUnchanged(e[k..], k);
      if k == 0 {
        assert e == e[0..];
      }
    }
  }

  /** A proper prefix that is a part itself unescapes to fewer bytes. */
  lemma UnescapeGrows(a: seq<byte>, b: seq<byte>)
    requires ValidPart(a) && ValidPart(b) && a < b
    ensures |Unescape(a)| < |Unescape(b)|
  {
    var x := b[|a|..];
    assert b == a + x;
    UnescapeExtends(a, x, 0);
    UnescapeVersusScan(a);
    UnescapeVersusScan(b);
    var k := LeadingBackslashes(b);
    if Reserved(b[k..]) {
      PrefixOfReserved(a, k, b[k..]);
      UnescapeRun(k, b[k..], 0);
      ReservedUnchanged(b[k..], k);
    }
  }

  /** What can begin a reserved name behind backslashes: some of the backslashes, or one dot of two. */
  lemma PrefixOfReserved(a: seq<byte>, k: nat, r: seq<byte>)
    requires ValidPart(a) && Reserved(r) && a < Repeat(BACKSLASH, k) + r
    ensures |Unescape(a)| < k - 1 + |r|
  {
    if |a| <= k {
      RepeatSplit(BACKSLASH, |a|, k - |a|);
      assert a == Repeat(BACKSLASH, |a|);
      assert a + [] == a;
      UnescapeRun(|a|, [], 0);
      UnescapeVersusScan(a);
    } else {
      assert a == Repeat(BACKSLASH, k) + [DOT];
      LeadingBackslashesOf(k, [DOT]);
    }
  }

  // ---------- the test on lists of parts ----------

  /** The same test on two lists of parts, each part with a slash in front. */
  predicate PartsBelow(a: seq<seq<byte>>, b: seq<seq<byte>>) {
    var u, v := |UnescapedParts(a)|, UnescapedParts(b);
    Path(a) <= Path(b) && u < |v| && (u > 0 ==> v[u - 1] == NUL)
  }

  /** Neither condition is enough alone; together they decide "proper prefix". */
  lemma {:induction false} PartsBelowIsPrefix(a: seq<seq<byte>>, b: seq<seq<byte>>)
    requires ValidParts(a) && ValidParts(b)
    ensures PartsBelow(a, b) <==> a <= b && a != b
  {
    hide *;
    if a == [] {
      EmptyBelow(b);
    } else if b == [] {
      NothingBelowEmpty(a);
    } else {
      ValidHead(a);
      ValidHead(b);
      PartsBelowIsPrefix(a[1..], b[1..]);
      SamePrefix([a[0]], a[1..], b[1..]);
      assert a == [a[0]] + a[1..] && b == [b[0]] + b[1..];
      if a[0] == b[0] {
        NamesBelowBehind(a, b);
      } else {
        NamesBelowFails(a, b);
      }
    }
  }

  lemma EmptyBelow(b: seq<seq<byte>>)
    requires ValidParts(b)
    ensures PartsBelow([], b) <==> b != []
  {
    if b != [] {
      UnescapedEndsInNul(b);
    }
  }

  lemma NothingBelowEmpty(a: seq<seq<byte>>)
    requires a != []
    ensures !PartsBelow(a, [])
  {
    PathStartsWithSlash(a);
  }

  lemma PathHead(parts: seq<seq<byte>>)
    requires parts != []
    ensures Path(parts) == [SLASH] + (parts[0] + Path(parts[1..]))
    ensures UnescapedParts(parts) == (Unescape(parts[0]) + [NUL]) + UnescapedParts(parts[1..])
  {
  }

  /** With equal first parts the test is the test on the rest. */
  lemma NamesBelowBehind(a: seq<seq<byte>>, b: seq<seq<byte>>)
    requires a != [] && b != [] && a[0] == b[0]
    ensures PartsBelow(a, b) == PartsBelow(a[1..], b[1..])
  {
    PathHead(a);
    PathHead(b);
    var head := Unescape(a[0]) + [NUL];
    SamePrefix(a[0], Path(a[1..]), Path(b[1..]));
    ConsPrefix(SLASH, a[0] + Path(a[1..]), b[0] + Path(b[1..]));
    hide Path, UnescapedParts, Unescape;
    var u, v := |UnescapedParts(a[1..])|, UnescapedParts(b[1..]);
    assert UnescapedParts(b) == head + v;
    assert u > 0 && u < |v| ==> (head + v)[|head| + u - 1] == v[u - 1];
    assert u == 0 ==> (head + v)[|head| + u - 1] == NUL;
  }

  /** With different first parts the test fails: one part would have to begin the other. */
  lemma NamesBelowFails(a: seq<seq<byte>>, b: seq<seq<byte>>)
    requires ValidParts(a) && ValidParts(b)
    requires a != [] && b != [] && a[0] != b[0]
    ensures !PartsBelow(a, b)
  {
    hide *;
    ValidHead(a);
    ValidHead(b);
    var x, y := Path(a[1..]), Path(b[1..]);
    PathHead(a);
    PathHead(b);
    PathStartsWithSlash(a[1..]);
    PathStartsWithSlash(b[1..]);
    ConsPrefix(SLASH, a[0] + x, b[0] + y);
    if Path(a) <= Path(b) {
      FirstPartBegins(a[0], x, b[0], y);
      UnescapeGrows(a[0], b[0]);
      NotAtTheEnd(a, b);
    } else {
      NamesBelowNeedsPrefix(a, b);
    }
  }

  lemma NamesBelowNeedsPrefix(a: seq<seq<byte>>, b: seq<seq<byte>>)
    requires !(Path(a) <= Path(b))
    ensures !PartsBelow(a, b)
  {
  }

  lemma FirstPartBegins(a: seq<byte>, x: seq<byte>, b: seq<byte>, y: seq<byte>)
    requires WellEscaped(a, 0) && WellEscaped(b, 0) && a != b
    requires (x == [] || x[0] == SLASH) && (y == [] || y[0] == SLASH)
    requires a + x <= b + y
    ensures x == [] && a < b
  {
    hide *;
    LevelOfPart(a, x, 0);
    LevelOfPart(b, y, 0);
    var p, q := a + x, b + y;
    assert p[..|a|] == a && q[..|b|] == b && q[..|a|] == p[..|a|];
    if x != [] {
      LevelOfPrefix(p, q, 0);
    } else {
      assert a + [] == a;
      if |b| < |a| {
        LevelOfShorter(a, q, 0);
      }
    }
  }

  /** A level that ends inside a prefix ends there in the prefix as well. */
  lemma {:induction false} LevelOfShorter(p: seq<byte>, q: seq<byte>, run: nat)
    requires p <= q && LevelLength(q, run) < |p|
    ensures LevelLength(p, run) == LevelLength(q, run)
  {
    if LevelLength(q, run) > 0 {
      LevelOfShorter(p[1..], q[1..], if p[0] == BACKSLASH then run + 1 else 0);
    }
  }

  /** Inside the longer part no NUL can stand where the shorter one would end. */
  lemma NotAtTheEnd(a: seq<seq<byte>>, b: seq<seq<byte>>)
    requires a != [] && b != [] && NulFree(Unescape(b[0]))
    requires |Unescape(a[0])| < |Unescape(b[0])|
    requires Path(a[1..]) == []
    ensures !PartsBelow(a, b)
  {
    PathStartsWithSlash(a[1..]);
    PathHead(a);
    PathHead(b);
    UnescapedNil();
    hide UnescapedParts, Unescape, Path;
    var u, v := |UnescapedParts(a)|, UnescapedParts(b);
    assert u == |Unescape(a[0])| + 1;
    assert v[u - 1] == Unescape(b[0])[u - 1];
  }

  // ---------- what the whole function decides ----------

  /** check lies properly below key; a cascading name stands for every namespace. */
  predicate ProperlyBelow(key: Name, check: Name) {
    (key.root == check.root || key.root == [] || check.root == [])
    && key.parts <= check.parts && key.parts != check.parts
  }

  /** The test with the leading NUL of cascading names. */
  lemma NamesBelowCascading(a: seq<seq<byte>>, b: seq<seq<byte>>)
    ensures NamesBelow(Path(a), 1 + |UnescapedParts(a)|, Path(b), [NUL] + UnescapedParts(b)) == PartsBelow(a, b)
  {
    hide Path, UnescapedParts;
    var u, v := |UnescapedParts(a)|, UnescapedParts(b);
    assert u < |v| && u > 0 ==> ([NUL] + v)[u] == v[u - 1];
  }

  /** The test on namespaced names, whose root is a part like the others. */
  lemma NamesBelowNamespaced(key: Name, check: Name)
    requires key.Valid() && check.Valid() && key.root != [] && check.root != []
    ensures NamesBelow(key.Render(), |Unescaped(key)|, check.Render(), Unescaped(check))
         == PartsBelow(key.Levels(), check.Levels())
  {
    hide *;
    UnescapedNamespaced(key);
    UnescapedNamespaced(check);
    ConsPrefix(SLASH, key.Render(), check.Render());
    NamesBelowUnfold(key.Render(), |Unescaped(key)|, check.Render(), Unescaped(check));
    PartsBelowUnfold(key.Levels(), check.Levels());
  }

  lemma NamesBelowUnfold(keyname: seq<byte>, ukeysize: nat, checkname: seq<byte>, ucheckname: seq<byte>)
    ensures NamesBelow(keyname, ukeysize, checkname, ucheckname) <==>
      keyname <= checkname && 0 < ukeysize < |ucheckname| && ucheckname[ukeysize - 1] == NUL
  {
  }

  lemma PartsBelowUnfold(a: seq<seq<byte>>, b: seq<seq<byte>>)
    ensures var u, v := |UnescapedParts(a)|, UnescapedParts(b);
      PartsBelow(a, b) <==> Path(a) <= Path(b) && u < |v| && (u > 0 ==> v[u - 1] == NUL)
  {
    hide Path, UnescapedParts;
  }

  lemma UnescapedNamespaced(n: Name)
    requires n.Valid() && n.root != []
    ensures Unescaped(n) == UnescapedParts(n.Levels()) != []
    ensures [SLASH] + n.Render() == Path(n.Levels())
  {
    UnescapedOf(n);
    UnescapedFirstByte(n);
    assert [] + UnescapedParts(n.Levels()) == UnescapedParts(n.Levels());
    assert n.Levels()[0] == n.root && n.Levels()[1..] == n.parts;
  }

  /** Cutting the namespace off both forms of a name leaves the forms of the cascading name. */
  lemma WithoutNamespace(n: Name)
    requires n.Valid() && n.root != []
    ensures LevelLength(n.Render(), 0) == |n.root| && n.Render()[|n.root|..] == Path(n.parts)
    ensures FirstNul(Unescaped(n)) == |n.root|
    ensures Unescaped(n)[|n.root|..] == [NUL] + UnescapedParts(n.parts)
    ensures SLASH in n.Render() <==> n.parts != []
    ensures n.Render()[0] != SLASH
  {
    NamespaceIsPart(n.root);
    PathStartsWithSlash(n.parts);
    LevelOfPart(n.root, Path(n.parts), 0);
    RootForms(n);
    FirstNulOf(n.root, UnescapedParts(n.parts));
    assert n.Render()[0] == n.root[0];
    if n.parts != [] {
      assert n.Render()[|n.root|] == SLASH;
    } else {
      assert n.Render() == n.root;
    }
  }

  lemma RootForms(n: Name)
    requires n.Valid() && n.root != []
    ensures Unescaped(n) == n.root + [NUL] + UnescapedParts(n.parts)
    ensures NulFree(n.root)
  {
    hide Unescape, UnescapedParts, Unescaped, NulFree, Name.Render;
    UnescapedOf(n);
    NamespaceIsPart(n.root);
    assert n.Levels() == [n.root] + n.parts;
    UnescapedHead(n.root, n.parts);
    NamespaceUnescaped(n.root);
    assert [] + UnescapedParts(n.Levels()) == UnescapedParts(n.Levels());
  }

  lemma NamespaceUnescaped(root: seq<byte>)
    requires IsNamespace(root)
    ensures Unescape(root) == root && NulFree(root)
  {
    NamespaceIsPart(root);
    PlainUnescape(root);
    assert LeadingBackslashes(root) == 0;
  }

  lemma {:induction false} FirstNulOf(s: seq<byte>, rest: seq<byte>)
    requires NulFree(s)
    ensures FirstNul(s + [NUL] + rest) == |s|
    ensures (s + [NUL] + rest)[|s|..] == [NUL] + rest
  {
    if s != [] {
      assert (s + [NUL] + rest)[1..] == s[1..] + [NUL] + rest;
      FirstNulOf(s[1..], rest);
    }
  }

  /** keyIsBelow, computed from escaped and unescaped forms together, is "properly below" by parts. */
  lemma BelowIsProper(key: Name, check: Name)
    requires key.Valid() && check.Valid()
    ensures key.Render() != [] && check.Render() != []
    ensures KeyIsBelow(key, check) <==> ProperlyBelow(key, check)
  {
    hide NamesBelow, PartsBelow, Unescaped, Path, UnescapedParts, LevelLength, FirstNul;
    hide Name.Render, Name.Levels, Name.Valid, ValidParts;
    Facts(key);
    Facts(check);
    LevelsValid(key);
    LevelsValid(check);
    if key.root != [] && check.root != [] {
      WithoutNamespace(key);
      WithoutNamespace(check);
      NamesBelowNamespaced(key, check);
      PartsBelowIsPrefix(key.Levels(), check.Levels());
      LevelsPrefix(key.root, key.parts, check.root, check.parts);
    } else {
      if key.root != [] {
        WithoutNamespace(key);
      }
      if check.root != [] {
        WithoutNamespace(check);
      }
      NamesBelowCascading(key.parts, check.parts);
      PartsBelowIsPrefix(key.parts, check.parts);
    }
  }

  lemma LevelsPrefix<T>(r: T, p: seq<T>, s: T, q: seq<T>)
    ensures [r] + p <= [s] + q <==> r == s && p <= q
    ensures [r] + p == [s] + q <==> r == s && p == q
  {
    assert ([r] + p)[0] == r && ([s] + q)[0] == s;
    assert ([r] + p)[1..] == p && ([s] + q)[1..] == q;
    if r == s {
      SamePrefix([r], p, q);
    }
  }

  lemma Facts(n: Name)
    requires n.Valid()
    ensures n.Render() != [] && ValidParts(n.parts)
    ensures n.root == [] ==> n.Render()[0] == SLASH && Unescaped(n) == [NUL] + UnescapedParts(n.parts)
    ensures n.root == [] ==> n.Render() == if n.parts == [] then [SLASH] else Path(n.parts)
    ensures n.root != [] ==> n.Levels() == [n.root] + n.parts && n.Render() != [SLASH]
    ensures n.root == [] && n.parts != [] ==> n.Render() != [SLASH]
  {
    ValidIsReadable(n);
    RenderStart(n);
    RenderAtRoot(n);
    UnescapedOf(n);
  }

  /** keyIsBelowOrSame compares the escaped names, which are equal only for equal names. */
  lemma BelowOrSameIs(key: Name, check: Name)
    requires key.Valid() && check.Valid()
    ensures key.Render() != [] && check.Render() != []
    ensures KeyIsBelowOrSame(key, check) <==> ProperlyBelow(key, check) || key == check
  {
    hide ProperlyBelow, Parse, KeyIsBelow;
    BelowIsProper(key, check);
    ValidIsReadable(key);
    ValidIsReadable(check);
    ParseRender(key);
    ParseRender(check);
  }

  /** For a namespaced cutpoint: its subtree, and the cascading names with a longer path. */
  lemma BelowOrSameNamespaced(key: Name, check: Name)
    requires key.Valid() && check.Valid() && key.root != []
    ensures KeyIsBelowOrSame(key, check) <==>
      Encloses(key, check) || (check.root == [] && Encloses(key.(root := []), check) && key.parts != check.parts)
  {
    hide KeyIsBelowOrSame;
    BelowOrSameIs(key, check);
  }

  /** Where keyIsDirectBelow looks for the end of a string: behind the key's own parts, if the offset is the key's. */
  function DirectOffset(key: Name, check: Name): nat {
    if key.root == [] && check.root != [] then FirstNul(Unescaped(check)) + |Unescaped(key)| else |Unescaped(key)|
  }

  /** Whether that place is in the unescaped name of check. */
  predicate DirectReadsInside(key: Name, check: Name)
    requires key.Render() != [] && check.Render() != []
  {
    KeyIsBelow(key, check) ==> DirectOffset(key, check) < |Unescaped(check)|
  }

  /** keyIsDirectBelow: the string that is found there is the last one. */
  function KeyIsDirectBelow(key: Name, check: Name): bool
    requires key.Render() != [] && check.Render() != [] && DirectReadsInside(key, check)
  {
    KeyIsBelow(key, check)
    && DirectOffset(key, check) + FirstNul(Unescaped(check)[DirectOffset(key, check)..]) == |Unescaped(check)| - 1
  }

  /** Directly below is below by exactly one part, unless the key has a namespace and check is cascading. */
  lemma DirectBelowIsOneLevel(key: Name, check: Name)
    requires key.Valid() && check.Valid() && (key.root != [] ==> check.root != [])
    ensures key.Render() != [] && check.Render() != [] && DirectReadsInside(key, check)
    ensures KeyIsDirectBelow(key, check) <==> ProperlyBelow(key, check) && |check.parts| == |key.parts| + 1
  {
    hide Unescaped, UnescapedParts, KeyIsBelow, Name.Render, Name.Valid, ValidParts;
    BelowIsProper(key, check);
    if ProperlyBelow(key, check) {
      BehindKey(key, check);
      NextString(check.parts[|key.parts|..]);
    }
  }

  /**
    Then the namespace is counted as if check had one: the name is read behind its end exactly if what
    follows the key's parts is not longer than the namespace, and "directly" means that whatever stands
    between the key's parts and the last one is not longer than the namespace.
   */
  lemma DirectBelowOfCascading(key: Name, check: Name)
    requires key.Valid() && check.Valid() && key.root != [] && check.root == [] && ProperlyBelow(key, check)
    ensures key.Render() != [] && check.Render() != []
    ensures var rest := check.parts[|key.parts|..];
      && (DirectReadsInside(key, check) <==> |key.root| < |UnescapedParts(rest)|)
      && (DirectReadsInside(key, check) ==>
           (KeyIsDirectBelow(key, check) <==> |UnescapedParts(rest[..|rest| - 1])| <= |key.root|))
  {
    hide *;
    BelowIsProper(key, check);
    var rest := BehindParts(key, check);
    CascadingOffset(key, check);
    if |key.root| < |UnescapedParts(rest)| {
      Skipped(Unescaped(check), 1 + |UnescapedParts(key.parts)|, UnescapedParts(rest), |key.root|);
      LastString(rest, |key.root|);
      DirectBelowUnfold(key, check);
    }
  }

  /** The unescaped form of check from the offset keyIsDirectBelow computes. */
  lemma BehindKey(key: Name, check: Name)
    requires key.Valid() && check.Valid() && (key.root != [] ==> check.root != [])
    requires ProperlyBelow(key, check)
    ensures var ucheck, offset := Unescaped(check), DirectOffset(key, check);
      var rest := check.parts[|key.parts|..];
      offset < |ucheck| && ucheck[offset..] == UnescapedParts(rest) && ValidParts(rest) && rest != []
  {
    hide *;
    var rest := RestOf(key, check);
    UnescapedPartsConcat(key.parts, rest);
    UnescapedForm(key);
    UnescapedForm(check);
    Behind(check.root, UnescapedParts(key.parts), UnescapedParts(rest));
    UnescapedEndsInNul(rest);
    OffsetIs(key, check);
    if check.root != [] {
      WithoutNamespace(check);
    }
  }

  lemma OffsetIs(key: Name, check: Name)
    ensures DirectOffset(key, check) ==
      if key.root == [] && check.root != [] then FirstNul(Unescaped(check)) + |Unescaped(key)| else |Unescaped(key)|
  {
  }

  lemma RestOf(key: Name, check: Name) returns (rest: seq<seq<byte>>)
    requires key.Valid() && check.Valid() && (key.root != [] ==> check.root != [])
    requires ProperlyBelow(key, check)
    ensures |key.parts| <= |check.parts| && rest == check.parts[|key.parts|..] && check.parts == key.parts + rest
    ensures ValidParts(rest) && rest != [] && (key.root == [] || key.root == check.root)
  {
    rest := check.parts[|key.parts|..];
  }

  lemma Behind(r: seq<byte>, x: seq<byte>, y: seq<byte>)
    ensures var s := r + ([NUL] + (x + y)); |s| == |r| + 1 + |x| + |y| && s[|r| + 1 + |x|..] == y
  {
  }

  /** The namespace, if any, a NUL, and the parts. */
  lemma UnescapedForm(n: Name)
    requires n.Valid()
    ensures Unescaped(n) == n.root + ([NUL] + UnescapedParts(n.parts))
  {
    hide *;
    Facts(n);
    if n.root != [] {
      RootForms(n);
      Assoc(n.root, [NUL], UnescapedParts(n.parts));
    }
  }

  /** One string is all there is exactly when there is one part. */
  lemma NextString(rest: seq<seq<byte>>)
    requires ValidParts(rest) && rest != []
    ensures FirstNul(UnescapedParts(rest)) == |UnescapedParts(rest)| - 1 <==> |rest| == 1
  {
    ValidHead(rest);
    PathHead(rest);
    FirstNulOf(Unescape(rest[0]), UnescapedParts(rest[1..]));
    if |rest| > 1 {
      UnescapedEndsInNul(rest[1..]);
    } else {
      UnescapedNil();
    }
  }

  lemma CascadingOffset(key: Name, check: Name)
    requires key.Valid() && check.Valid() && key.root != [] && check.root == []
    ensures key.Render() != [] && check.Render() != []
    ensures DirectOffset(key, check) == |key.root| + 1 + |UnescapedParts(key.parts)|
    ensures KeyIsBelow(key, check) ==> (DirectReadsInside(key, check) <==> DirectOffset(key, check) < |Unescaped(check)|)
  {
    hide Unescaped, UnescapedParts, KeyIsBelow, Name.Render, Name.Valid, ValidParts;
    Facts(key);
    Facts(check);
    UnescapedForm(key);
  }

  lemma DirectBelowUnfold(key: Name, check: Name)
    requires key.Render() != [] && check.Render() != [] && KeyIsBelow(key, check) && DirectReadsInside(key, check)
    ensures var ucheck, offset := Unescaped(check), DirectOffset(key, check);
      offset < |ucheck| && (KeyIsDirectBelow(key, check) <==> offset + FirstNul(ucheck[offset..]) == |ucheck| - 1)
  {
    hide Unescaped, KeyIsBelow, Name.Render;
  }

  /** What stands behind the key's parts in a cascading name. */
  lemma BehindParts(key: Name, check: Name) returns (rest: seq<seq<byte>>)
    requires key.Valid() && check.Valid() && check.root == [] && ProperlyBelow(key, check)
    ensures |key.parts| <= |check.parts| && rest == check.parts[|key.parts|..] && rest != [] && ValidParts(rest)
    ensures var ucheck, u := Unescaped(check), 1 + |UnescapedParts(key.parts)|;
      |ucheck| == u + |UnescapedParts(rest)| && ucheck[u..] == UnescapedParts(rest)
  {
    hide Unescaped, UnescapedParts, Name.Valid, Name.Render;
    rest := check.parts[|key.parts|..];
    Facts(check);
    assert check.parts == key.parts + rest;
    UnescapedPartsConcat(key.parts, rest);
    UnescapedForm(check);
    Behind([], UnescapedParts(key.parts), UnescapedParts(rest));
  }

  lemma Skipped(s: seq<byte>, u: nat, v: seq<byte>, k: nat)
    requires u <= |s| && s[u..] == v && k < |v|
    ensures s[u + k..] == v[k..] && |s| == u + |v|
  {
  }

  /** From a place inside there is no NUL before the end exactly if it is in the last string. */
  lemma LastString(rest: seq<seq<byte>>, k: nat)
    requires ValidParts(rest) && rest != [] && k < |UnescapedParts(rest)|
    ensures k + FirstNul(UnescapedParts(rest)[k..]) == |UnescapedParts(rest)| - 1 <==>
      |UnescapedParts(rest[..|rest| - 1])| <= k
  {
    hide *;
    var init, last := rest[..|rest| - 1], rest[|rest| - 1];
    LastOf(rest);
    UnescapedPartsConcat(init, [last]);
    UnescapedOne(last);
    ValidHead([last]);
    var u, v := UnescapedParts(init), Unescape(last);
    assert UnescapedParts(rest) == u + (v + [NUL]);
    if |u| <= k {
      assert (u + (v + [NUL]))[k..] == v[k - |u|..] + [NUL];
      FirstNulOf(v[k - |u|..], []);
      assert v[k - |u|..] + [NUL] + [] == v[k - |u|..] + [NUL];
    } else {
      UnescapedEndsInNul(init);
      NulBefore(u + (v + [NUL]), k, |u| - 1);
    }
  }

  lemma LastOf(rest: seq<seq<byte>>)
    requires ValidParts(rest) && rest != []
    ensures rest == rest[..|rest| - 1] + [rest[|rest| - 1]] && ValidParts([rest[|rest| - 1]])
  {
  }

  lemma {:induction false} FirstNulAtMost(s: seq<byte>, i: nat)
    requires i < |s| && s[i] == NUL
    ensures FirstNul(s) <= i
  {
    if i > 0 {
      FirstNulAtMost(s[1..], i - 1);
    }
  }

  lemma NulBefore(s: seq<byte>, k: nat, i: nat)
    requires k <= i < |s| - 1 && s[i] == NUL
    ensures k + FirstNul(s[k..]) != |s| - 1
  {
    FirstNulAtMost(s[k..], i - k);
  }

  /** keyRel, for keys of the same owner. */
  function KeyRel(key: Name, check: Name): int
    requires key.Render() != [] && check.Render() != [] && DirectReadsInside(key, check)
  {
    if key.Render() == check.Render() then 0
    else if KeyIsDirectBelow(key, check) then 1
    else if KeyIsBelow(key, check) then 2
    else if (key.root == USER && check.root == USER) || (key.root == SYSTEM && check.root == SYSTEM) then -3
    else -2
  }

  /** What a relation that is not negative says, when both keys have a namespace. */
  lemma KeyRelIs(key: Name, check: Name)
    requires key.Valid() && check.Valid() && key.root != [] && check.root != []
    ensures key.Render() != [] && check.Render() != [] && DirectReadsInside(key, check)
    ensures KeyRel(key, check) >= 0 <==> Encloses(key, check)
    ensures KeyRel(key, check) == 0 <==> key == check
    ensures KeyRel(key, check) == 1 <==> Encloses(key, check) && |check.parts| == |key.parts| + 1
  {
    hide Parse, KeyIsBelow, KeyIsDirectBelow, Name.Render, Name.Valid, DirectReadsInside;
    DirectBelowIsOneLevel(key, check);
    BelowIsProper(key, check);
    ValidIsReadable(key);
    ValidIsReadable(check);
    ParseRender(key);
    ParseRender(check);
  }

  /** From "user/a", "/a/bb/cc" is taken to be directly below, and "/a/b" leads behind the end of its name. */
  lemma DirectBelowGoesWrong()
    ensures var key := Name(USER, [[97]]);
      var deep, flat := Name([], [[97], [98, 98], [99, 99]]), Name([], [[97], [98]]);
      && key.Valid() && deep.Valid() && flat.Valid() && key.Render() != [] && deep.Render() != [] && flat.Render() != []
      && DirectReadsInside(key, deep) && KeyIsDirectBelow(key, deep) && |deep.parts| == |key.parts| + 2
      && !DirectReadsInside(key, flat)
  {
    hide Unescaped, UnescapedParts, KeyIsBelow, Name.Render;
    var key, deep, flat := Name(USER, [[97]]), Name([], [[97], [98, 98], [99, 99]]), Name([], [[97], [98]]);
    DirectBelowOfCascading(key, deep);
    DirectBelowOfCascading(key, flat);
    UnescapedHead([98, 98], [[99, 99]]);
    UnescapedOne([99, 99]);
    UnescapedOne([98, 98]);
    UnescapedOne([98]);
    assert deep.parts[1..] == [[98, 98], [99, 99]] == [[98, 98]] + [[99, 99]] && [[98, 98], [99, 99]][..1] == [[98, 98]];
    assert flat.parts[1..] == [[98]];
    assert |Unescape([98, 98])| == 2 && |Unescape([99, 99])| == 2 && |Unescape([98])| == 1;
  }
}
