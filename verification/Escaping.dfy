/** Escaping and unescaping of one key name part (internal.c). */
module Escaping {
  import opened Bytes

  /** Bare "%" stands for the empty part; ".", ".." navigate. Escaping protects all three. */
  predicate Reserved(s: seq<byte>) {
    s == [PERCENT] || s == [DOT] || s == [DOT, DOT]
  }

  function LeadingBackslashes(s: seq<byte>): (n: nat)
    ensures n <= |s| && s == Repeat(BACKSLASH, n) + s[n..]
    ensures n < |s| ==> s[n] != BACKSLASH
  {
    if s == [] || s[0] != BACKSLASH then 0 else 1 + LeadingBackslashes(s[1..])
  }

  /** The rest of an escaped part, when the last `run` bytes copied so far were backslashes. */
  function EscapeFrom(s: seq<byte>, run: nat): seq<byte> {
    if s == [] then Repeat(BACKSLASH, run)
    else if s[0] == BACKSLASH then [BACKSLASH] + EscapeFrom(s[1..], run + 1)
    else if s[0] == SLASH then Repeat(BACKSLASH, run + 1) + ([SLASH] + EscapeFrom(s[1..], 0))
    else [s[0]] + EscapeFrom(s[1..], 0)
  }

  /** The rest of an unescaped part, when `run` backslashes were read but not written yet. */
  function UnescapeFrom(e: seq<byte>, run: nat): seq<byte> {
    if e == [] then Repeat(BACKSLASH, run / 2)
    else if e[0] == BACKSLASH then UnescapeFrom(e[1..], run + 1)
    else if e[0] == SLASH then Repeat(BACKSLASH, run / 2) + ([SLASH] + UnescapeFrom(e[1..], 0))
    else Repeat(BACKSLASH, run) + ([e[0]] + UnescapeFrom(e[1..], 0))
  }

  function Escape(s: seq<byte>): seq<byte> {
    var k := LeadingBackslashes(s);
    if s == [] then [PERCENT]
    else if Reserved(s[k..]) then Repeat(BACKSLASH, k) + ([BACKSLASH] + s[k..])
    else EscapeFrom(s, 0)
  }

  function Unescape(e: seq<byte>): seq<byte> {
    var k := LeadingBackslashes(e);
    if e == [PERCENT] then []
    else if k > 0 && Reserved(e[k..]) then Repeat(BACKSLASH, k - 1) + e[k..]
    else UnescapeFrom(e, 0)
  }

  /** After `run` backslashes: every slash is escaped and no backslash dangles at the end. */
  predicate WellEscaped(e: seq<byte>, run: nat) {
    if e == [] then run % 2 == 0
    else if e[0] == BACKSLASH then WellEscaped(e[1..], run + 1)
    else if e[0] == SLASH then run % 2 == 1 && WellEscaped(e[1..], 0)
    else WellEscaped(e[1..], 0)
  }

  /** A part as it may stand between two slashes of a canonical key name. */
  predicate ValidPart(e: seq<byte>) {
    e != [] && NulFree(e) && WellEscaped(e, 0) && e != [DOT] && e != [DOT, DOT]
  }

  // ---------- runs of backslashes ----------

  lemma {:induction false} UnescapeRun(n: nat, e: seq<byte>, run: nat)
    ensures UnescapeFrom(Repeat(BACKSLASH, n) + e, run) == UnescapeFrom(e, n + run)
    ensures WellEscaped(Repeat(BACKSLASH, n) + e, run) == WellEscaped(e, n + run)
  {
    if n == 0 {
      assert Repeat(BACKSLASH, 0) + e == e;
    } else {
      assert (Repeat(BACKSLASH, n) + e)[1..] == Repeat(BACKSLASH, n - 1) + e;
      UnescapeRun(n - 1, e, run + 1);
    }
  }

  lemma {:induction false} EscapeRun(n: nat, s: seq<byte>, run: nat)
    ensures EscapeFrom(Repeat(BACKSLASH, n) + s, run) == Repeat(BACKSLASH, n) + EscapeFrom(s, n + run)
  {
    if n == 0 {
      assert Repeat(BACKSLASH, 0) + s == s;
    } else {
      assert (Repeat(BACKSLASH, n) + s)[1..] == Repeat(BACKSLASH, n - 1) + s;
      EscapeRun(n - 1, s, run + 1);
    }
  }

  /** The number of leading backslashes is determined by where the first other byte is. */
  lemma {:induction false} LeadingBackslashesOf(n: nat, s: seq<byte>)
    requires s == [] || s[0] != BACKSLASH
    ensures LeadingBackslashes(Repeat(BACKSLASH, n) + s) == n
    ensures (Repeat(BACKSLASH, n) + s)[n..] == s
  {
    var t := Repeat(BACKSLASH, n) + s;
    assert t[n..] == s;
    if n == 0 {
      assert t == s;
    } else {
      assert t[0] == BACKSLASH && t[1..] == Repeat(BACKSLASH, n - 1) + s;
      LeadingBackslashesOf(n - 1, s);
      assert LeadingBackslashes(t) == 1 + LeadingBackslashes(t[1..]);
    }
  }

  lemma {:induction false} ReservedUnchanged(r: seq<byte>, run: nat)
    requires Reserved(r)
    ensures EscapeFrom(r, run) == r
    ensures UnescapeFrom(r, run) == Repeat(BACKSLASH, run) + r
    ensures WellEscaped(r, run)
  {
    if r == [DOT, DOT] {
      assert r[1..] == [DOT];
      assert EscapeFrom([DOT], 0) == [DOT] == UnescapeFrom([DOT], 0);
    }
  }

  // ---------- the two round trips on the plain scan ----------

  lemma UnescapeCons(b: byte, e: seq<byte>, run: nat)
    requires b != BACKSLASH
    ensures UnescapeFrom([b] + e, run)
         == Repeat(BACKSLASH, if b == SLASH then run / 2 else run) + ([b] + UnescapeFrom(e, 0))
    ensures WellEscaped([b] + e, run) == ((b == SLASH ==> run % 2 == 1) && WellEscaped(e, 0))
  {
    assert ([b] + e)[1..] == e;
  }

  lemma EscapeCons(b: byte, s: seq<byte>, run: nat)
    requires b != BACKSLASH
    ensures EscapeFrom([b] + s, run)
         == Repeat(BACKSLASH, if b == SLASH then run + 1 else 0) + ([b] + EscapeFrom(s, 0))
  {
    assert ([b] + s)[1..] == s;
    assert Repeat(BACKSLASH, 0) + ([b] + EscapeFrom(s, 0)) == [b] + EscapeFrom(s, 0);
  }

  /** A backslash may be counted in the run or kept in the string. */
  lemma MoveBackslash(run: nat, s: seq<byte>)
    requires s != [] && s[0] == BACKSLASH
    ensures Repeat(BACKSLASH, run + 1) + s[1..] == Repeat(BACKSLASH, run) + s
  {
    RepeatSplit(BACKSLASH, run, 1);
    assert s == Repeat(BACKSLASH, 1) + s[1..];
  }

  lemma {:induction false} UnescapeEscapeFrom(s: seq<byte>, run: nat)
    ensures UnescapeFrom(EscapeFrom(s, run), run) == Repeat(BACKSLASH, run) + s
    ensures WellEscaped(EscapeFrom(s, run), run)
    decreases |s|
  {
    if s == [] {
      UnescapeRun(run, [], run);
      assert Repeat(BACKSLASH, run) + [] == Repeat(BACKSLASH, run);
    } else if s[0] == BACKSLASH {
      UnescapeEscapeFrom(s[1..], run + 1);
      assert EscapeFrom(s, run) == Repeat(BACKSLASH, 1) + EscapeFrom(s[1..], run + 1);
      UnescapeRun(1, EscapeFrom(s[1..], run + 1), run);
      MoveBackslash(run, s);
    } else {
      UnescapeEscapeFrom(s[1..], 0);
      assert Repeat(BACKSLASH, 0) + s[1..] == s[1..];
      UnescapeEscapeOther(s[0], s[1..], run);
      assert s == [s[0]] + s[1..];
    }
  }

  lemma UnescapeEscapeOther(b: byte, s: seq<byte>, run: nat)
    requires b != BACKSLASH
    requires UnescapeFrom(EscapeFrom(s, 0), 0) == s && WellEscaped(EscapeFrom(s, 0), 0)
    ensures UnescapeFrom(EscapeFrom([b] + s, run), run) == Repeat(BACKSLASH, run) + ([b] + s)
    ensures WellEscaped(EscapeFrom([b] + s, run), run)
  {
    var e := EscapeFrom(s, 0);
    var n := if b == SLASH then run + 1 else 0;
    assert EscapeFrom([b] + s, run) == Repeat(BACKSLASH, n) + ([b] + e) by {
      EscapeCons(b, s, run);
    }
    UnescapeRun(n, [b] + e, run);
    UnescapeCons(b, e, n + run);
  }

  lemma {:induction false} EscapeUnescapeFrom(e: seq<byte>, run: nat)
    requires WellEscaped(e, run)
    ensures EscapeFrom(UnescapeFrom(e, run), 0) == Repeat(BACKSLASH, run) + e
    decreases |e|
  {
    if e == [] {
      assert Repeat(BACKSLASH, run / 2) + [] == Repeat(BACKSLASH, run / 2);
      EscapeRun(run / 2, [], 0);
      RepeatSplit(BACKSLASH, run / 2, run / 2);
      assert Repeat(BACKSLASH, run) + [] == Repeat(BACKSLASH, run);
    } else if e[0] == BACKSLASH {
      EscapeUnescapeFrom(e[1..], run + 1);
      MoveBackslash(run, e);
    } else {
      EscapeUnescapeFrom(e[1..], 0);
      assert Repeat(BACKSLASH, 0) + e[1..] == e[1..];
      EscapeUnescapeOther(e[0], e[1..], run);
      assert e == [e[0]] + e[1..];
    }
  }

  lemma RepeatJoin(m: nat, n: nat, tail: seq<byte>)
    ensures Repeat(BACKSLASH, m) + (Repeat(BACKSLASH, n) + tail) == Repeat(BACKSLASH, m + n) + tail
  {
    RepeatSplit(BACKSLASH, m, n);
  }

  lemma EscapeUnescapeOther(b: byte, e: seq<byte>, run: nat)
    requires b != BACKSLASH && (b == SLASH ==> run % 2 == 1)
    requires EscapeFrom(UnescapeFrom(e, 0), 0) == e
    ensures EscapeFrom(UnescapeFrom([b] + e, run), 0) == Repeat(BACKSLASH, run) + ([b] + e)
  {
    var s := UnescapeFrom(e, 0);
    var shown := if b == SLASH then run / 2 else run;
    var hidden := if b == SLASH then shown + 1 else 0;
    UnescapeCons(b, e, run);
    EscapeRun(shown, [b] + s, 0);
    EscapeCons(b, s, shown);
    RepeatJoin(shown, hidden, [b] + e);
  }

  // ---------- the round trips ----------

  /** Any byte string survives being stored as a key name part. */
  lemma {:induction false} UnescapeEscape(s: seq<byte>)
    ensures Unescape(Escape(s)) == s
  {
    var k := LeadingBackslashes(s);
    if s == [] {
    } else if Reserved(s[k..]) {
      EscapeReserved(k, s[k..]);
      UnescapeReserved(k, s[k..]);
    } else {
      var e := EscapeFrom(s, 0);
      var j := LeadingBackslashes(e);
      UnescapeEscapeFrom(s, 0);
      assert Repeat(BACKSLASH, 0) + s == s;
      UnescapeRun(j, e[j..], 0);
      if Reserved(e[j..]) {
        ReservedUnchanged(e[j..], j);
      }
    }
  }

  lemma UnescapeReserved(k: nat, r: seq<byte>)
    requires Reserved(r)
    ensures Unescape(Repeat(BACKSLASH, k + 1) + r) == Repeat(BACKSLASH, k) + r
  {
    LeadingBackslashesOf(k + 1, r);
    assert (Repeat(BACKSLASH, k + 1) + r)[0] == BACKSLASH;
  }

  /** A reserved name behind k backslashes gets one more. */
  lemma EscapeReserved(k: nat, r: seq<byte>)
    requires Reserved(r)
    ensures Escape(Repeat(BACKSLASH, k) + r) == Repeat(BACKSLASH, k + 1) + r
  {
    LeadingBackslashesOf(k, r);
    RepeatSplit(BACKSLASH, k, 1);
    assert Repeat(BACKSLASH, k) + ([BACKSLASH] + r) == (Repeat(BACKSLASH, k) + Repeat(BACKSLASH, 1)) + r;
  }

  /** Unescaping loses nothing of a valid part, so parts and their unescaped forms are in bijection. */
  lemma {:induction false} EscapeUnescape(e: seq<byte>)
    requires e != [] && WellEscaped(e, 0) && e != [DOT] && e != [DOT, DOT]
    ensures Escape(Unescape(e)) == e
  {
    var k := LeadingBackslashes(e);
    if e == [PERCENT] {
    } else if k > 0 && Reserved(e[k..]) {
      EscapeReserved(k - 1, e[k..]);
    } else {
      var s := UnescapeFrom(e, 0);
      EscapeUnescapeFrom(e, 0);
      assert Repeat(BACKSLASH, 0) + e == e;
      var j := LeadingBackslashes(s);
      EscapeRun(j, s[j..], 0);
      if Reserved(s[j..]) {
        ReservedUnchanged(s[j..], j);
      }
    }
  }

  lemma {:induction false} EscapeFromNulFree(s: seq<byte>, run: nat)
    requires NulFree(s)
    ensures NulFree(EscapeFrom(s, run))
    ensures |EscapeFrom(s, run)| <= 2 * |s| + run
    decreases |s|
  {
    if s != [] {
      EscapeFromNulFree(s[1..], if s[0] == BACKSLASH then run + 1 else 0);
    }
  }

  lemma {:induction false} UnescapeFromNulFree(e: seq<byte>, run: nat)
    requires NulFree(e)
    ensures NulFree(UnescapeFrom(e, run))
    ensures |UnescapeFrom(e, run)| <= |e| + run
    ensures WellEscaped(e, run) ==> |UnescapeFrom(e, run)| >= (if |e| + run > 0 then 1 else 0)
    decreases |e|
  {
    if e != [] {
      UnescapeFromNulFree(e[1..], if e[0] == BACKSLASH then run + 1 else 0);
    }
  }

  /** Escaping always yields a valid part, in at most 2 * |s| + 2 bytes with its terminator. */
  lemma {:induction false} EscapeIsValid(s: seq<byte>)
    requires NulFree(s)
    ensures ValidPart(Escape(s))
    ensures |Escape(s)| + 1 <= 2 * |s| + 2
  {
    var k := LeadingBackslashes(s);
    if s != [] && Reserved(s[k..]) {
      RepeatSplit(BACKSLASH, k, 1);
      assert Escape(s) == Repeat(BACKSLASH, k + 1) + s[k..];
      UnescapeRun(k + 1, s[k..], 0);
      ReservedUnchanged(s[k..], k + 1);
      assert Escape(s)[0] == BACKSLASH;
    } else if s != [] {
      UnescapeEscape(s);
      UnescapeEscapeFrom(s, 0);
      EscapeFromNulFree(s, 0);
      UnescapeEscapeDistinct(s);
    }
  }

  /** A string that needs no protection is not escaped to a navigating name either. */
  lemma {:induction false} UnescapeEscapeDistinct(s: seq<byte>)
    requires s != [] && !Reserved(s[LeadingBackslashes(s)..])
    ensures EscapeFrom(s, 0) != [] && !Reserved(EscapeFrom(s, 0))
  {
    var e := EscapeFrom(s, 0);
    UnescapeEscapeFrom(s, 0);
    assert Repeat(BACKSLASH, 0) + s == s;
    if Reserved(e) {
      ReservedUnchanged(e, 0);
    }
  }

  lemma {:induction false} UnescapeNulFree(e: seq<byte>)
    requires NulFree(e)
    ensures NulFree(Unescape(e)) && |Unescape(e)| <= |e|
  {
    UnescapeFromNulFree(e, 0);
  }

  // ---------- what escaping changes ----------

  /** e is s with some backslashes put in. */
  predicate Inserts(s: seq<byte>, e: seq<byte>) {
    if e == [] then s == []
    else (s != [] && s[0] == e[0] && Inserts(s[1..], e[1..])) || (e[0] == BACKSLASH && Inserts(s, e[1..]))
  }

  lemma {:induction false} InsertsRun(n: nat, s: seq<byte>, e: seq<byte>)
    requires Inserts(s, e)
    ensures Inserts(s, Repeat(BACKSLASH, n) + e)
  {
    if n == 0 {
      assert Repeat(BACKSLASH, 0) + e == e;
    } else {
      assert (Repeat(BACKSLASH, n) + e)[1..] == Repeat(BACKSLASH, n - 1) + e;
      InsertsRun(n - 1, s, e);
    }
  }

  lemma {:induction false} InsertsSame(s: seq<byte>)
    ensures Inserts(s, s)
  {
    if s != [] {
      InsertsSame(s[1..]);
    }
  }

  lemma {:induction false} EscapeFromInserts(s: seq<byte>, run: nat)
    ensures Inserts(s, EscapeFrom(s, run))
    decreases |s|
  {
    if s == [] {
      InsertsRun(run, [], []);
      assert Repeat(BACKSLASH, run) + [] == Repeat(BACKSLASH, run);
    } else {
      EscapeFromInserts(s[1..], if s[0] == BACKSLASH then run + 1 else 0);
      var e := [s[0]] + EscapeFrom(s[1..], if s[0] == BACKSLASH then run + 1 else 0);
      assert e[1..] == EscapeFrom(s[1..], if s[0] == BACKSLASH then run + 1 else 0) && Inserts(s, e);
      if s[0] == SLASH {
        InsertsRun(run + 1, s, e);
      }
    }
  }

  /** Escaping puts in backslashes and nothing else; only the empty part gets a sign of its own. */
  lemma EscapeInserts(s: seq<byte>)
    ensures s == [] ==> Escape(s) == [PERCENT]
    ensures s != [] ==> Inserts(s, Escape(s))
  {
    var k := LeadingBackslashes(s);
    if s != [] && Reserved(s[k..]) {
      EscapeReserved(k, s[k..]);
      InsertsSame(s);
      InsertsRun(1, s, s);
      RepeatSplit(BACKSLASH, 1, k);
      assert Repeat(BACKSLASH, k + 1) + s[k..] == Repeat(BACKSLASH, 1) + (Repeat(BACKSLASH, k) + s[k..]);
    } else if s != [] {
      EscapeFromInserts(s, 0);
    }
  }

  lemma {:induction false} EscapeFromPlain(s: seq<byte>)
    requires SLASH !in s && BACKSLASH !in s
    ensures EscapeFrom(s, 0) == s
  {
    if s != [] {
      EscapeFromPlain(s[1..]);
      assert [s[0]] + s[1..] == s;
    }
  }

  /** Without slashes and backslashes nothing but "%", "." and ".." needs protection. */
  lemma EscapePlain(s: seq<byte>)
    requires s != [] && SLASH !in s && BACKSLASH !in s
    ensures Escape(s) == if s == [PERCENT] || s == [DOT] || s == [DOT, DOT] then [BACKSLASH] + s else s
  {
    assert LeadingBackslashes(s) == 0 && s[0..] == s;
    if Reserved(s) {
      assert Repeat(BACKSLASH, 0) + ([BACKSLASH] + s) == [BACKSLASH] + s;
    } else {
      EscapeFromPlain(s);
    }
  }

  lemma EscapeEnd(run: nat)
    ensures EscapeFrom([], run) == Repeat(BACKSLASH, run)
    ensures SLASH != BACKSLASH
  {
  }

  lemma RunsDoubled(k: nat, rest: seq<byte>)
    ensures EscapeFrom(Repeat(BACKSLASH, k) + ([SLASH] + rest), 0)
         == Repeat(BACKSLASH, 2 * k + 1) + ([SLASH] + EscapeFrom(rest, 0))
    ensures EscapeFrom(Repeat(BACKSLASH, k), 0) == Repeat(BACKSLASH, 2 * k)
  {
    hide *;
    EscapeEnd(k);
    EscapeRun(k, [SLASH] + rest, 0);
    EscapeRun(k, [], 0);
    EscapeCons(SLASH, rest, k);
    RepeatSplit(BACKSLASH, k, k + 1);
    RepeatSplit(BACKSLASH, k, k);
    Assoc(Repeat(BACKSLASH, k), Repeat(BACKSLASH, k + 1), [SLASH] + EscapeFrom(rest, 0));
    assert Repeat(BACKSLASH, k) + [] == Repeat(BACKSLASH, k);
  }

  /** Behind other bytes: k backslashes and a slash become 2 * k + 1 and a slash, and at the end they are doubled. */
  lemma EscapeDoubles(x: byte, k: nat, rest: seq<byte>)
    requires x != SLASH && x != BACKSLASH && x != PERCENT && x != DOT
    ensures Escape([x] + (Repeat(BACKSLASH, k) + ([SLASH] + rest)))
         == [x] + (Repeat(BACKSLASH, 2 * k + 1) + ([SLASH] + EscapeFrom(rest, 0)))
    ensures Escape([x] + Repeat(BACKSLASH, k)) == [x] + Repeat(BACKSLASH, 2 * k)
  {
    hide *;
    RunsDoubled(k, rest);
    FirstKept(x, Repeat(BACKSLASH, k) + ([SLASH] + rest));
    FirstKept(x, Repeat(BACKSLASH, k));
  }

  lemma FirstKept(x: byte, s: seq<byte>)
    requires x != SLASH && x != BACKSLASH && x != PERCENT && x != DOT
    ensures Escape([x] + s) == [x] + EscapeFrom(s, 0)
  {
    assert ([x] + s)[0] == x && ([x] + s)[0..] == [x] + s;
    assert LeadingBackslashes([x] + s) == 0;
    EscapeCons(x, s, 0);
    assert Repeat(BACKSLASH, 0) + ([x] + EscapeFrom(s, 0)) == [x] + EscapeFrom(s, 0);
  }
}
