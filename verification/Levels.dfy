/** Splitting an escaped key name into its levels (keyNameGetOneLevel in keyhelpers.c). */
module Levels {
  import opened Bytes
  import opened Escaping

  function LeadingSlashes(s: seq<byte>): (n: nat)
    ensures n <= |s|
    ensures n < |s| ==> s[n] != SLASH
  {
    if s == [] || s[0] != SLASH then 0 else 1 + LeadingSlashes(s[1..])
  }

  /** Bytes up to the first slash preceded by an even run of backslashes. */
  function LevelLength(s: seq<byte>, run: nat): (n: nat)
    ensures n <= |s|
    ensures n == 0 ==> s == [] || s[0] == SLASH
    ensures n < |s| ==> s[n] == SLASH
  {
    if s == [] || (s[0] == SLASH && run % 2 == 0) then 0
    else 1 + LevelLength(s[1..], if s[0] == BACKSLASH then run + 1 else 0)
  }

  /** All levels of a name; slashes that follow one another count once. */
  function Split(name: seq<byte>): seq<seq<byte>>
    decreases |name|
  {
    var rest := name[LeadingSlashes(name)..];
    if rest == [] then []
    else
      var n := LevelLength(rest, 0);
      [rest[..n]] + Split(rest[n..])
  }

  /** Each part with a slash in front. */
  function Path(parts: seq<seq<byte>>): seq<byte> {
    if parts == [] then [] else [SLASH] + (parts[0] + Path(parts[1..]))
  }

  predicate WellEscapedParts(parts: seq<seq<byte>>) {
    forall i | 0 <= i < |parts| :: parts[i] != [] && WellEscaped(parts[i], 0)
  }

  predicate NulFreeParts(parts: seq<seq<byte>>) {
    forall i | 0 <= i < |parts| :: NulFree(parts[i])
  }

  predicate ValidParts(parts: seq<seq<byte>>) {
    forall i | 0 <= i < |parts| :: ValidPart(parts[i])
  }

  /** Length of the run of backslashes at the end, counted backwards. */
  function TrailingBackslashes(s: seq<byte>): (n: nat)
    ensures n <= |s|
  {
    if s == [] || s[|s| - 1] != BACKSLASH then 0 else 1 + TrailingBackslashes(s[..|s| - 1])
  }

  method OneLevel(name: seq<byte>, from: nat) returns (start: nat, size: nat)
    requires from <= |name|
    ensures from <= start <= |name| && (start < |name| ==> name[start] != SLASH)
    ensures forall i | from <= i < start :: name[i] == SLASH
    ensures start == |name| <==> Split(name[from..]) == []
    ensures start < |name| ==> 0 < size && start + size <= |name|
    ensures start < |name| ==> Split(name[from..]) == [name[start..start + size]] + Split(name[start + size..])
  {
    hide Split;
    start := from;
    while start < |name| && name[start] == SLASH
      invariant from <= start <= |name| && forall i | from <= i < start :: name[i] == SLASH
      invariant start + LeadingSlashes(name[start..]) == from + LeadingSlashes(name[from..])
    {
      assert name[start..][1..] == name[start + 1..];
      start := start + 1;
    }
    size := LevelEnd(name[start..]);
    SplitUnfold(name, from, start, size);
  }

  /** The second loop of keyNameGetOneLevel: up to the first slash that is not escaped. */
  method LevelEnd(rest: seq<byte>) returns (size: nat)
    ensures size == LevelLength(rest, 0)
  {
    var cursor, end, escapeCount := 0, false, 0;
    while cursor < |rest| && !end
      invariant cursor <= |rest| && escapeCount >= 0
      invariant !end ==> cursor + LevelLength(rest[cursor..], escapeCount) == LevelLength(rest, 0)
      invariant end ==> cursor == LevelLength(rest, 0) + 1
    {
      assert rest[cursor..][1..] == rest[cursor + 1..];
      match rest[cursor] {
        case 92 => escapeCount := escapeCount + 1;
        case 47 =>
          if escapeCount % 2 == 0 {
            end := true;
          }
          escapeCount := 0;
        case _ => escapeCount := 0;
      }
      cursor := cursor + 1;
    }
    if end {
      cursor := cursor - 1;
    }
    size := cursor;
  }

  lemma SplitUnfold(name: seq<byte>, from: nat, start: nat, size: nat)
    requires from <= start <= |name| && start == from + LeadingSlashes(name[from..])
    requires size == LevelLength(name[start..], 0)
    ensures start == |name| ==> Split(name[from..]) == []
    ensures start < |name| ==> 0 < size && start + size <= |name|
    ensures start < |name| ==> Split(name[from..]) == [name[start..start + size]] + Split(name[start + size..])
  {
    var rest := name[from..][LeadingSlashes(name[from..])..];
    assert rest == name[start..];
    if start < |name| {
      assert rest[..size] == name[start..start + size] && rest[size..] == name[start + size..];
    }
  }

  /** A well-escaped part is one level, whatever follows after the next slash. */
  lemma {:induction false} LevelOfPart(e: seq<byte>, rest: seq<byte>, run: nat)
    requires WellEscaped(e, run)
    requires rest == [] || rest[0] == SLASH
    ensures LevelLength(e + rest, run) == |e|
    decreases |e|
  {
    if e == [] {
      assert e + rest == rest;
    } else {
      assert (e + rest)[1..] == e[1..] + rest;
      LevelOfPart(e[1..], rest, if e[0] == BACKSLASH then run + 1 else 0);
    }
  }

  lemma PathStartsWithSlash(parts: seq<seq<byte>>)
    ensures Path(parts) == [] || Path(parts)[0] == SLASH
    ensures Path(parts) == [] <==> parts == []
  {
  }

  /** A level, then a path: the level comes out first. */
  lemma SplitFirst(e: seq<byte>, rest: seq<byte>)
    requires e != [] && WellEscaped(e, 0)
    requires rest == [] || rest[0] == SLASH
    ensures Split(e + rest) == [e] + Split(rest)
    ensures Split([SLASH] + (e + rest)) == [e] + Split(rest)
  {
    LevelOfPart(e, rest, 0);
    assert (e + rest)[..|e|] == e && (e + rest)[|e|..] == rest;
    SplitAfterSlash(e + rest);
  }

  /** A slash at the beginning makes no difference. */
  lemma SplitAfterSlash(s: seq<byte>)
    ensures Split([SLASH] + s) == Split(s)
  {
    assert ([SLASH] + s)[1..] == s;
    assert ([SLASH] + s)[LeadingSlashes([SLASH] + s)..] == s[LeadingSlashes(s)..];
  }

  /** Joining with slashes and splitting again gives the parts back. */
  lemma {:induction false} SplitPath(parts: seq<seq<byte>>)
    requires WellEscapedParts(parts)
    ensures Split(Path(parts)) == parts
  {
    hide *;
    if parts == [] {
      PathNil();
      SplitEmpty();
    } else {
      WellEscapedCons(parts);
      PathStartsWithSlash(parts[1..]);
      SplitPath(parts[1..]);
      SplitFirst(parts[0], Path(parts[1..]));
      PathUnfold(parts);
      assert parts == [parts[0]] + parts[1..];
    }
  }

  lemma PathUnfold(parts: seq<seq<byte>>)
    requires parts != []
    ensures Path(parts) == [SLASH] + (parts[0] + Path(parts[1..]))
  {
  }

  lemma {:induction false} PathAppend(a: seq<seq<byte>>, b: seq<seq<byte>>)
    ensures Path(a + b) == Path(a) + Path(b)
  {
    if a == [] {
      assert a + b == b;
    } else {
      assert (a + b)[1..] == a[1..] + b;
      PathAppend(a[1..], b);
    }
  }

  // ---------- what splitting can produce ----------

  /** Backslashes pending at the end of s, when `run` of them came before it. */
  function PendingRun(s: seq<byte>, run: nat): nat {
    if s == [] then run else PendingRun(s[1..], if s[0] == BACKSLASH then run + 1 else 0)
  }

  lemma {:induction false} PendingRunIsTrailing(s: seq<byte>, run: nat)
    ensures PendingRun(s, run) == TrailingBackslashes(s) + (if TrailingBackslashes(s) == |s| then run else 0)
  {
    if s != [] {
      var next := if s[0] == BACKSLASH then run + 1 else 0;
      PendingRunIsTrailing(s[1..], next);
      TrailingBackslashesTail(s);
    }
  }

  lemma {:induction false} TrailingBackslashesTail(s: seq<byte>)
    requires s != []
    ensures var n := TrailingBackslashes(s[1..]);
      TrailingBackslashes(s) == if n == |s| - 1 && s[0] == BACKSLASH then |s| else n
  {
    if |s| > 1 && s[|s| - 1] == BACKSLASH {
      TrailingBackslashesTail(s[..|s| - 1]);
      assert s[..|s| - 1][1..] == s[1..][..|s| - 2];
    }
  }

  lemma {:induction false} LevelIsWellEscaped(s: seq<byte>, run: nat)
    requires PendingRun(s, run) % 2 == 0
    ensures var n := LevelLength(s, run);
      WellEscaped(s[..n], run) && PendingRun(s[n..], 0) % 2 == 0
  {
    var n := LevelLength(s, run);
    if n > 0 {
      var next := if s[0] == BACKSLASH then run + 1 else 0;
      LevelIsWellEscaped(s[1..], next);
      assert s[..n][1..] == s[1..][..n - 1];
      assert s[n..] == s[1..][n - 1..];
    } else {
      assert s[0..] == s;
    }
  }

  lemma PendingRunAtSlash(s: seq<byte>)
    ensures PendingRun([SLASH] + s, 0) == PendingRun(s, 0)
  {
    assert ([SLASH] + s)[1..] == s;
  }

  lemma {:induction false} SkipKeepsPending(s: seq<byte>)
    ensures PendingRun(s[LeadingSlashes(s)..], 0) == PendingRun(s, 0)
  {
    if s != [] && s[0] == SLASH {
      SkipKeepsPending(s[1..]);
      assert s[1..][LeadingSlashes(s[1..])..] == s[LeadingSlashes(s)..];
    } else {
      assert s[0..] == s;
    }
  }

  /** A NUL-free name that does not end in a dangling backslash splits into well-escaped levels. */
  lemma {:induction false} SplitIsWellEscaped(name: seq<byte>)
    requires NulFree(name) && TrailingBackslashes(name) % 2 == 0
    ensures WellEscapedParts(Split(name)) && NulFreeParts(Split(name))
  {
    PendingRunIsTrailing(name, 0);
    SplitPending(name);
  }

  lemma {:induction false} SplitPending(name: seq<byte>)
    requires NulFree(name) && PendingRun(name, 0) % 2 == 0
    ensures WellEscapedParts(Split(name)) && NulFreeParts(Split(name))
    decreases |name|
  {
    var rest := name[LeadingSlashes(name)..];
    if rest != [] {
      SkipKeepsPending(name);
      LevelIsWellEscaped(rest, 0);
      var n := LevelLength(rest, 0);
      SplitPending(rest[n..]);
      ConsParts(rest[..n], Split(rest[n..]));
    }
  }

  lemma ConsParts(e: seq<byte>, parts: seq<seq<byte>>)
    requires WellEscapedParts(parts) && NulFreeParts(parts)
    requires e != [] && WellEscaped(e, 0) && NulFree(e)
    ensures WellEscapedParts([e] + parts) && NulFreeParts([e] + parts)
  {
  }

  /** Splitting is compositional at a separating slash. */
  lemma {:induction false} SplitConcat(a: seq<byte>, b: seq<byte>)
    requires PendingRun(a, 0) % 2 == 0
    requires b == [] || b[0] == SLASH
    ensures Split(a + b) == Split(a) + Split(b)
    decreases |a|
  {
    hide *;
    if a == [] {
      SplitEmpty();
      assert a + b == b && [] + Split(b) == Split(b);
    } else if a[0] == SLASH {
      assert [SLASH] + a[1..] == a;
      PendingRunAtSlash(a[1..]);
      SplitConcat(a[1..], b);
      SplitConcatSlash(a[1..], b);
    } else {
      var n := LevelLength(a, 0);
      LevelIsWellEscaped(a, 0);
      SplitConcat(a[n..], b);
      SplitConcatLevel(a[..n], a[n..], b);
      assert a[..n] + a[n..] == a;
    }
  }

  lemma SplitEmpty()
    ensures Split([]) == []
  {
  }

  lemma SplitConcatSlash(s: seq<byte>, b: seq<byte>)
    requires Split(s + b) == Split(s) + Split(b)
    ensures Split([SLASH] + s + b) == Split([SLASH] + s) + Split(b)
  {
    hide *;
    SplitAfterSlash(s);
    SplitAfterSlash(s + b);
    assert [SLASH] + s + b == [SLASH] + (s + b);
  }

  lemma SplitConcatLevel(e: seq<byte>, rest: seq<byte>, b: seq<byte>)
    requires e != [] && WellEscaped(e, 0)
    requires rest == [] || rest[0] == SLASH
    requires b == [] || b[0] == SLASH
    requires Split(rest + b) == Split(rest) + Split(b)
    ensures Split(e + rest + b) == Split(e + rest) + Split(b)
  {
    hide *;
    SplitFirst(e, rest);
    SplitFirst(e, rest + b);
    assert e + rest + b == e + (rest + b);
  }

  // ---------- string prefix versus component prefix ----------

  /** Two well-escaped parts, each followed by a slash, of which one string begins the other, are equal. */
  lemma ClosedPartsEqual(a: seq<byte>, x: seq<byte>, b: seq<byte>, y: seq<byte>)
    requires WellEscaped(a, 0) && WellEscaped(b, 0)
    requires x != [] && x[0] == SLASH && y != [] && y[0] == SLASH
    requires a + x <= b + y
    ensures a == b
  {
    hide *;
    LevelOfPart(a, x, 0);
    LevelOfPart(b, y, 0);
    LevelOfPrefix(a + x, b + y, 0);
    assert (a + x)[..|a|] == a && (b + y)[..|b|] == b;
    assert (b + y)[..|a|] == (a + x)[..|a|];
  }

  lemma {:induction false} LevelOfPrefix(p: seq<byte>, q: seq<byte>, run: nat)
    requires p <= q && LevelLength(p, run) < |p|
    ensures LevelLength(p, run) == LevelLength(q, run)
  {
    if LevelLength(p, run) > 0 {
      LevelOfPrefix(p[1..], q[1..], if p[0] == BACKSLASH then run + 1 else 0);
    }
  }

  /** With a slash appended to both, one path begins another exactly when its parts do. */
  lemma {:induction false} PathPrefix(a: seq<seq<byte>>, b: seq<seq<byte>>)
    requires WellEscapedParts(a) && WellEscapedParts(b)
    ensures Path(a) + [SLASH] <= Path(b) + [SLASH] <==> a <= b
  {
    hide *;
    PathStartsWithSlash(a);
    PathStartsWithSlash(b);
    PathNil();
    if a == [] {
      assert Path(b) + [SLASH] == [SLASH] + (Path(b) + [SLASH])[1..];
    } else if b == [] {
      assert |Path(a) + [SLASH]| > 1;
    } else {
      WellEscapedCons(a);
      WellEscapedCons(b);
      PathPrefix(a[1..], b[1..]);
      var x, y := Path(a[1..]) + [SLASH], Path(b[1..]) + [SLASH];
      PathCons(a);
      PathCons(b);
      ConsPrefix(SLASH, a[0] + x, b[0] + y);
      if a[0] + x <= b[0] + y {
        ClosedPartsEqual(a[0], x, b[0], y);
      }
      if a[0] == b[0] {
        SamePrefix(a[0], x, y);
        SamePrefix([a[0]], a[1..], b[1..]);
        assert a == [a[0]] + a[1..] && b == [b[0]] + b[1..];
      }
    }
  }

  lemma PathNil()
    ensures Path([]) == []
  {
  }

  lemma PathCons(parts: seq<seq<byte>>)
    requires parts != []
    ensures Path(parts) + [SLASH] == [SLASH] + (parts[0] + (Path(parts[1..]) + [SLASH]))
    ensures (Path(parts[1..]) + [SLASH])[0] == SLASH
  {
    Assoc([SLASH], parts[0] + Path(parts[1..]), [SLASH]);
    Assoc(parts[0], Path(parts[1..]), [SLASH]);
  }

  lemma WellEscapedCons(parts: seq<seq<byte>>)
    requires parts != [] && WellEscapedParts(parts)
    ensures WellEscapedParts(parts[1..]) && parts[0] != [] && WellEscaped(parts[0], 0)
  {
    assert forall i | 0 <= i < |parts| - 1 :: parts[1..][i] == parts[i + 1];
  }

  lemma ConsPrefix(c: byte, x: seq<byte>, y: seq<byte>)
    ensures [c] + x <= [c] + y <==> x <= y
  {
    SamePrefix([c], x, y);
  }

  lemma SamePrefix<T>(p: seq<T>, x: seq<T>, y: seq<T>)
    ensures p + x <= p + y <==> x <= y
  {
    assert (p + x)[|p|..] == x && (p + y)[|p|..] == y;
    if p + x <= p + y {
      assert (p + y)[..|p + x|] == p + x;
      assert y[..|x|] == (p + y)[..|p + x|][|p|..] == x;
    }
  }
}
