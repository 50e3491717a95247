/** The pointer-walking loops of internal.c, writing into caller-allocated buffers. */
module EscapingBuffers {
  import opened Bytes
  import opened Escaping

  /** The buffer starts with the C string s. */
  ghost predicate Holds(dest: array<byte>, s: seq<byte>)
    reads dest
  {
    |s| < dest.Length && dest[..|s|] == s && dest[|s|] == NUL
  }

  /** From here on the buffer is as it was. */
  twostate predicate Untouched(dest: array<byte>, from: nat)
    reads dest
  {
    forall i | from <= i < dest.Length :: dest[i] == old(dest[i])
  }

  method WriteBackslashes(dest: array<byte>, start: nat, number: nat) returns (dp: nat)
    requires start + number <= dest.Length
    modifies dest
    ensures dp == start + number
    ensures dest[..dp] == old(dest[..start]) + Repeat(BACKSLASH, number) && Untouched(dest, dp)
  {
    dp := start;
    var left := number;
    while left > 0
      invariant 0 <= left <= number && dp == start + (number - left)
      invariant dest[..dp] == old(dest[..start]) + Repeat(BACKSLASH, number - left)
      invariant Untouched(dest, dp)
    {
      dest[dp] := BACKSLASH;
      RepeatSplit(BACKSLASH, number - left, 1);
      dp := dp + 1;
      left := left - 1;
    }
  }

  method WriteByte(dest: array<byte>, start: nat, b: byte) returns (dp: nat)
    requires start < dest.Length
    modifies dest
    ensures dp == start + 1 && dest[..dp] == old(dest[..start]) + [b] && Untouched(dest, dp)
  {
    dest[start] := b;
    dp := start + 1;
  }

  method SkipBackslashes(source: seq<byte>) returns (skipped: nat)
    ensures skipped == LeadingBackslashes(source)
  {
    skipped := 0;
    while skipped < |source| && source[skipped] == BACKSLASH
      invariant skipped <= |source|
      invariant skipped + LeadingBackslashes(source[skipped..]) == LeadingBackslashes(source)
    {
      assert source[skipped..][1..] == source[skipped + 1..];
      skipped := skipped + 1;
    }
  }

  /** strcpy: the string and its terminator. */
  method CopyString(dest: array<byte>, dp: nat, s: seq<byte>)
    requires dp + |s| < dest.Length
    modifies dest
    ensures dest[..dp + |s|] == old(dest[..dp]) + s && dest[dp + |s|] == NUL
    ensures Untouched(dest, dp + |s| + 1)
  {
    var i := 0;
    while i < |s|
      invariant i <= |s|
      invariant dest[..dp + i] == old(dest[..dp]) + s[..i] && Untouched(dest, dp + i)
    {
      dest[dp + i] := s[i];
      i := i + 1;
    }
    dest[dp + |s|] := NUL;
  }

  /** strlen and memcpy: the C string a buffer starts with. */
  method ReadString(buffer: array<byte>, ghost s: seq<byte>) returns (r: seq<byte>)
    requires Holds(buffer, s) && NulFree(s)
    ensures r == s
  {
    var n := 0;
    assert forall i | 0 <= i < |s| :: buffer[i] == s[i];
    while buffer[n] != NUL
      invariant 0 <= n <= |s|
      decreases |s| - n
    {
      n := n + 1;
    }
    r := buffer[..n];
  }

  lemma EscapeEmpty()
    ensures Escape([]) == [PERCENT]
  {
  }

  lemma EscapeSpecial(source: seq<byte>)
    requires source != [] && Reserved(source[LeadingBackslashes(source)..])
    ensures var k := LeadingBackslashes(source);
      Escape(source) == Repeat(BACKSLASH, k) + ([BACKSLASH] + source[k..]) && |Escape(source)| <= |source| + 1
  {
  }

  method EscapePartBegin(source: seq<byte>, dest: array<byte>) returns (done: bool)
    requires dest.Length >= 2 * |source| + 2
    modifies dest
    ensures done <==> source == [] || Reserved(source[LeadingBackslashes(source)..])
    ensures done ==> Holds(dest, Escape(source)) && Untouched(dest, |Escape(source)| + 1)
    ensures !done ==> dest[..] == old(dest[..])
  {
    hide Escape, LeadingBackslashes, Repeat;
    EscapeEmpty();
    if source == [] {
      CopyString(dest, 0, [PERCENT]);
      return true;
    }
    var skipped := SkipBackslashes(source);
    var rest := source[skipped..];
    if rest == [PERCENT] || rest == [DOT] || rest == [DOT, DOT] {
      EscapeSpecial(source);
      var dp := WriteBackslashes(dest, 0, skipped);
      CopyString(dest, dp, [BACKSLASH] + rest);
      return true;
    }
    return false;
  }

  /** What one round of the escaping loop writes. */
  lemma EscapeStep(written: seq<byte>, s: seq<byte>, count: nat)
    requires s != []
    ensures var e := EscapeFrom(s, count);
      s[0] == BACKSLASH ==> written + e == (written + [s[0]]) + EscapeFrom(s[1..], count + 1)
    ensures var e := EscapeFrom(s, count);
      s[0] == SLASH ==>
        written + e == (written + [BACKSLASH] + Repeat(BACKSLASH, count) + [s[0]]) + EscapeFrom(s[1..], 0)
    ensures var e := EscapeFrom(s, count);
      s[0] != BACKSLASH && s[0] != SLASH ==> written + e == (written + [s[0]]) + EscapeFrom(s[1..], 0)
  {
    hide *;
    EscapeUnfold(s, count);
    if s[0] == SLASH {
      var rest := EscapeFrom(s[1..], 0);
      Assoc(written, [BACKSLASH] + Repeat(BACKSLASH, count), [SLASH] + rest);
      Assoc(written, [BACKSLASH], Repeat(BACKSLASH, count));
      Assoc(written + [BACKSLASH] + Repeat(BACKSLASH, count), [SLASH], rest);
    } else {
      Assoc(written, [s[0]], EscapeFrom(s[1..], if s[0] == BACKSLASH then count + 1 else 0));
    }
  }

  lemma EscapeUnfold(s: seq<byte>, count: nat)
    requires s != []
    ensures s[0] == SLASH ==> s[0] != BACKSLASH
    ensures s[0] == SLASH ==>
      EscapeFrom(s, count) == ([BACKSLASH] + Repeat(BACKSLASH, count)) + ([SLASH] + EscapeFrom(s[1..], 0))
    ensures s[0] != SLASH ==>
      EscapeFrom(s, count) == [s[0]] + EscapeFrom(s[1..], if s[0] == BACKSLASH then count + 1 else 0)
  {
  }

  method EscapePart(source: seq<byte>, dest: array<byte>)
    requires NulFree(source)
    requires dest.Length >= 2 * |source| + 2
    modifies dest
    ensures Holds(dest, Escape(source)) && Untouched(dest, |Escape(source)| + 1)
  {
    var done := EscapePartBegin(source, dest);
    if !done {
      EscapeFromNulFree(source, 0);
      EscapeRest(source, dest);
    }
  }

  /** The scan that follows when nothing at the beginning of the part was special. */
  method EscapeRest(source: seq<byte>, dest: array<byte>)
    requires |EscapeFrom(source, 0)| < dest.Length
    modifies dest
    ensures var n := |EscapeFrom(source, 0)|; Holds(dest, EscapeFrom(source, 0)) && Untouched(dest, n + 1)
  {
    var count, sp, dp := 0, 0, 0;
    ghost var written := [];
    while sp < |source|
      invariant sp <= |source| && dp == |written| <= dest.Length && dest[..dp] == written
      invariant Untouched(dest, dp)
      invariant written + EscapeFrom(source[sp..], count) == EscapeFrom(source, 0)
    {
      EscapeStep(written, source[sp..], count);
      assert source[sp..][1..] == source[sp + 1..];
      if source[sp] == BACKSLASH {
        count := count + 1;
      } else {
        if source[sp] == SLASH {
          dp := WriteByte(dest, dp, BACKSLASH);
          dp := WriteBackslashes(dest, dp, count);
        }
        count := 0;
      }
      dp := WriteByte(dest, dp, source[sp]);
      written := dest[..dp];
      sp := sp + 1;
    }
    dp := WriteBackslashes(dest, dp, count);
    dest[dp] := NUL;
  }

  method UnescapePartBegin(source: seq<byte>, dest: array<byte>, start: nat) returns (done: bool, dp: nat)
    requires source != [] && start + |Unescape(source)| < dest.Length
    modifies dest
    ensures !done ==> dp == start && dest[..] == old(dest[..]) && Unescape(source) == UnescapeFrom(source, 0)
    ensures done ==> dp == start + |Unescape(source)| && dest[..dp] == old(dest[..start]) + Unescape(source)
    ensures Untouched(dest, dp + 1)
  {
    hide UnescapeFrom, LeadingBackslashes, Repeat;
    dp := start;
    if source == [PERCENT] {
      return true, dp;
    }
    var skipped := SkipBackslashes(source);
    if skipped == 0 {
      return false, dp;
    }
    var rest := source[skipped..];
    if rest == [PERCENT] || rest == [DOT] || rest == [DOT, DOT] {
      dp := WriteBackslashes(dest, dp, skipped - 1);
      CopyString(dest, dp, rest);
      return true, dp + |rest|;
    }
    return false, dp;
  }

  lemma UnescapeStep(written: seq<byte>, e: seq<byte>, count: nat)
    requires e != []
    ensures e[0] == BACKSLASH ==> written + UnescapeFrom(e, count) == written + UnescapeFrom(e[1..], count + 1)
    ensures e[0] != BACKSLASH ==>
      written + UnescapeFrom(e, count)
      == (written + Repeat(BACKSLASH, if e[0] == SLASH then count / 2 else count) + [e[0]]) + UnescapeFrom(e[1..], 0)
  {
  }

  /** Requires what the function asserts: backslash parity is right at every slash and at the end. */
  method UnescapePart(source: seq<byte>, dest: array<byte>, start: nat) returns (dp: nat)
    requires WellEscaped(source, 0)
    requires start + |UnescapeFrom(source, 0)| < dest.Length
    modifies dest
    ensures dp == start + |UnescapeFrom(source, 0)|
    ensures dest[..dp] == old(dest[..start]) + UnescapeFrom(source, 0) && Untouched(dest, dp)
  {
    ghost var all := old(dest[..start]) + UnescapeFrom(source, 0);
    dp := start;
    var count, sp := 0, 0;
    ghost var written := dest[..dp];
    while sp < |source|
      invariant sp <= |source| && start <= dp == |written| <= dest.Length && dest[..dp] == written
      invariant written + UnescapeFrom(source[sp..], count) == all && Untouched(dest, dp)
      invariant WellEscaped(source[sp..], count)
    {
      UnescapeStep(written, source[sp..], count);
      assert source[sp..][1..] == source[sp + 1..];
      if source[sp] == BACKSLASH {
        count := count + 1;
      } else {
        if source[sp] == SLASH {
          assert count % 2 == 1;
          dp := WriteBackslashes(dest, dp, count / 2);
        } else {
          dp := WriteBackslashes(dest, dp, count);
        }
        dp := WriteByte(dest, dp, source[sp]);
        count := 0;
      }
      written := dest[..dp];
      sp := sp + 1;
    }
    assert count % 2 == 0;
    dp := WriteBackslashes(dest, dp, count / 2);
  }

  /** The escaped form, built in a buffer of the size keyAddBaseName allocates. */
  method EscapedCopy(source: seq<byte>) returns (escaped: seq<byte>)
    requires NulFree(source)
    ensures escaped == Escape(source)
  {
    var buffer := new byte[2 * |source| + 2];
    EscapePart(source, buffer);
    EscapeIsValid(source);
    escaped := ReadString(buffer, Escape(source));
  }
}
