/** Names of array elements: "#", one underscore less than digits, the digits (array.c, elektraWriteArrayNumber). */
module ArrayNames {
  import opened Bytes
  import opened Escaping
  import opened Levels
  import opened KeyNames
  import opened NamedKeys
  import opened KeyOrder
  import opened KeySets

  const HASH: byte := 35
  const UNDERSCORE: byte := 95
  const ZERO: byte := 48
  const NINE: byte := 57
  /** With the terminator. */
  const ELEKTRA_MAX_ARRAY_SIZE := 21
  const LIMIT := 10_000_000_000

  predicate IsDigit(b: byte) {
    ZERO <= b <= NINE
  }

  predicate AllDigits(s: seq<byte>) {
    forall i | 0 <= i < |s| :: IsDigit(s[i])
  }

  function Digits(n: nat): (ds: seq<byte>)
    ensures ds != [] && AllDigits(ds) && (|ds| > 1 ==> ds[0] != ZERO)
  {
    if n < 10 then [ZERO + n as byte] else Digits(n / 10) + [ZERO + (n % 10) as byte]
  }

  /** The number that digits stand for. */
  function Value(ds: seq<byte>): nat
    requires AllDigits(ds)
  {
    if ds == [] then 0 else 10 * Value(ds[..|ds| - 1]) + (ds[|ds| - 1] - ZERO) as nat
  }

  lemma {:induction false} ValueOfDigits(n: nat)
    ensures Value(Digits(n)) == n
  {
    if n >= 10 {
      ValueOfDigits(n / 10);
      assert Digits(n)[..|Digits(n)| - 1] == Digits(n / 10);
    }
  }

  /** Digits without a leading zero are the digits of their value. */
  lemma {:induction false} DigitsOfValue(ds: seq<byte>)
    requires AllDigits(ds) && ds != [] && (|ds| > 1 ==> ds[0] != ZERO)
    ensures Digits(Value(ds)) == ds
    ensures |ds| > 1 ==> Value(ds) >= 10
  {
    if |ds| > 1 {
      var front := ds[..|ds| - 1];
      DigitsOfValue(front);
      assert front[0] == ds[0] != ZERO;
      if |front| == 1 {
        assert Value(front) == 10 * Value([]) + (front[0] - ZERO) as nat by {
          assert front[..0] == [];
        }
      }
      assert ds == front + [ds[|ds| - 1]];
    } else {
      assert ds[..0] == [];
    }
  }

  function ArrayName(n: nat): seq<byte> {
    [HASH] + (Repeat(UNDERSCORE, |Digits(n)| - 1) + Digits(n))
  }

  function Pow10(k: nat): (r: nat)
    ensures r > 0
  {
    if k == 0 then 1 else 10 * Pow10(k - 1)
  }

  lemma {:induction false} DigitsLength(n: nat, k: nat)
    requires k > 0
    ensures |Digits(n)| <= k <==> n < Pow10(k)
  {
    if k == 1 {
      assert Pow10(1) == 10 * Pow10(0) == 10;
    } else if n >= 10 {
      DigitsLength(n / 10, k - 1);
    }
  }

  /** The name and its terminator fit into the buffer exactly for indices below 10^10. */
  lemma FitsExactlyIf(n: nat)
    ensures |ArrayName(n)| + 1 <= ELEKTRA_MAX_ARRAY_SIZE <==> n < LIMIT
  {
    DigitsLength(n, 10);
    assert Pow10(10) == LIMIT by {
      assert Pow10(5) == 100_000;
      assert Pow10(10) == 10 * (10 * (10 * (10 * (10 * Pow10(5)))));
    }
  }

  /** elektraWriteArrayNumber. */
  method WriteArrayNumber(newName: array<byte>, newIndex: nat) returns (ret: int)
    requires newName.Length == ELEKTRA_MAX_ARRAY_SIZE && newIndex < LIMIT
    modifies newName
    ensures ret == 0 && |ArrayName(newIndex)| + 1 <= newName.Length
    ensures newName[..|ArrayName(newIndex)| + 1] == ArrayName(newIndex) + [NUL]
  {
    FitsExactlyIf(newIndex);
    hide Digits;
    var index := WriteUnderscores(newName, newIndex);
    ghost var written := newName[..index];
    var digits := Digits(newIndex);
    forall j | 0 <= j < |digits| {
      newName[index + j] := digits[j];
    }
    newName[index + |digits|] := NUL;
    assert newName[..index + |digits| + 1] == written + digits + [NUL];
    ret := 0;
  }

  /** One underscore for each digit but the first. */
  method WriteUnderscores(newName: array<byte>, newIndex: nat) returns (index: nat)
    requires |Digits(newIndex)| < newName.Length
    modifies newName
    ensures index == |Digits(newIndex)| && newName[..index] == [HASH] + Repeat(UNDERSCORE, index - 1)
  {
    index := 0;
    newName[index] := HASH;
    index := index + 1;
    var i := newIndex / 10;
    while i > 0
      invariant 1 <= index <= |Digits(newIndex)|
      invariant index + (if i > 0 then |Digits(i)| else 0) == |Digits(newIndex)|
      invariant newName[..index] == [HASH] + Repeat(UNDERSCORE, index - 1)
    {
      newName[index] := UNDERSCORE;
      RepeatSplit(UNDERSCORE, index - 1, 1);
      index := index + 1;
      i := i / 10;
    }
  }

  // ---------- reading ----------

  function Leading(s: seq<byte>, underscores: bool): (n: nat)
    ensures n <= |s|
    ensures forall i | 0 <= i < n :: if underscores then s[i] == UNDERSCORE else IsDigit(s[i])
    ensures n < |s| ==> if underscores then s[n] != UNDERSCORE else !IsDigit(s[n])
  {
    if s == [] || (if underscores then s[0] != UNDERSCORE else !IsDigit(s[0])) then 0 else 1 + Leading(s[1..], underscores)
  }

  /** elektraArrayValidateName on the base name: 0 for the start, 1 for an element, else -1. */
  method ValidateName(name: seq<byte>) returns (ret: int)
    ensures ret == 0 <==> name == [HASH]
    ensures ret == 1 <==> Accepted(name)
    ensures ret == 0 || ret == 1 || ret == -1
  {
    if name == [HASH] {
      return 0;
    }
    if name == [] || name[0] != HASH {
      return -1;
    }
    hide Accepted, DigitsIn, Leading;
    DigitsInIs(name);
    var underscores := CountLeading(name, 1, true);
    var digits := CountLeading(name, 1 + underscores, false);
    assert name[1 + underscores..] == name[1..][underscores..];
    if underscores != digits - 1 {
      return -1;
    }
    if underscores + digits > ELEKTRA_MAX_ARRAY_SIZE - 2 {
      return -1;
    }
    ret := 1;
  }

  /** The loop over the underscores, and the one over the digits. */
  method CountLeading(name: seq<byte>, from: nat, underscores: bool) returns (count: nat)
    requires from <= |name|
    ensures from + count <= |name| && count == Leading(name[from..], underscores)
  {
    var current := from;
    count := 0;
    while current < |name| && (if underscores then name[current] == UNDERSCORE else IsDigit(name[current]))
      invariant current == from + count <= |name|
      invariant count + Leading(name[current..], underscores) == Leading(name[from..], underscores)
    {
      assert name[current..][1..] == name[current + 1..];
      current, count := current + 1, count + 1;
    }
  }

  function DigitsIn(name: seq<byte>): (ds: seq<byte>)
    requires name != []
    ensures AllDigits(ds)
  {
    var behind := name[1..][Leading(name[1..], true)..];
    behind[..Leading(behind, false)]
  }

  /** What the validation lets through: whatever follows the digits is not looked at. */
  predicate Accepted(name: seq<byte>) {
    && name != [] && name[0] == HASH
    && Leading(name[1..], true) == |DigitsIn(name)| - 1
    && 2 * |DigitsIn(name)| - 1 <= ELEKTRA_MAX_ARRAY_SIZE - 2
  }

  lemma {:induction false} LeadingUnderscores(n: nat, s: seq<byte>)
    requires s != [] && s[0] != UNDERSCORE
    ensures Leading(Repeat(UNDERSCORE, n) + s, true) == n && (Repeat(UNDERSCORE, n) + s)[n..] == s
  {
    if n == 0 {
      assert Repeat(UNDERSCORE, 0) + s == s;
    } else {
      LeadingUnderscores(n - 1, s);
      assert (Repeat(UNDERSCORE, n) + s)[1..] == Repeat(UNDERSCORE, n - 1) + s;
    }
  }

  lemma {:induction false} LeadingDigits(ds: seq<byte>, s: seq<byte>)
    requires AllDigits(ds) && (s == [] || !IsDigit(s[0]))
    ensures Leading(ds + s, false) == |ds| && (ds + s)[..|ds|] == ds && (ds + s)[|ds|..] == s
  {
    if ds == [] {
      assert ds + s == s;
    } else {
      assert (ds + s)[1..] == ds[1..] + s;
      LeadingDigits(ds[1..], s);
    }
  }

  /** A name of the right shape is taken apart as one would expect. */
  lemma Apart(ds: seq<byte>, s: seq<byte>)
    requires AllDigits(ds) && ds != [] && (s == [] || !IsDigit(s[0]))
    ensures var name := [HASH] + (Repeat(UNDERSCORE, |ds| - 1) + (ds + s));
      && DigitsIn(name) == ds && Leading(name[1..], true) == |ds| - 1
      && (Accepted(name) <==> |ds| <= 10)
  {
    hide Leading, Repeat, Accepted, DigitsIn, AllDigits, IsDigit;
    FirstIsDigit(ds, s);
    LeadingUnderscores(|ds| - 1, ds + s);
    LeadingDigits(ds, s);
    PutTogether([HASH] + (Repeat(UNDERSCORE, |ds| - 1) + (ds + s)), Repeat(UNDERSCORE, |ds| - 1) + (ds + s), ds + s, ds);
  }

  lemma PutTogether(name: seq<byte>, rest: seq<byte>, behind: seq<byte>, ds: seq<byte>)
    requires name == [HASH] + rest && ds != []
    requires Leading(rest, true) == |ds| - 1 <= |rest| && rest[|ds| - 1..] == behind
    requires Leading(behind, false) == |ds| <= |behind| && behind[..|ds|] == ds
    ensures DigitsIn(name) == ds && Leading(name[1..], true) == |ds| - 1
    ensures Accepted(name) <==> |ds| <= 10
  {
    hide Leading, Accepted, DigitsIn, AllDigits, IsDigit;
    assert name[1..] == rest;
    DigitsInIs(name);
  }

  lemma FirstIsDigit(ds: seq<byte>, s: seq<byte>)
    requires AllDigits(ds) && ds != []
    ensures (ds + s)[0] != UNDERSCORE
  {
  }

  lemma DigitsInIs(name: seq<byte>)
    requires name != []
    ensures Leading(name[1..], true) < |name|
    ensures var behind := name[1..][Leading(name[1..], true)..];
      && Leading(behind, false) <= |behind| && DigitsIn(name) == behind[..Leading(behind, false)]
    ensures Accepted(name) <==>
      && name[0] == HASH && Leading(name[1..], true) == |DigitsIn(name)| - 1
      && 2 * |DigitsIn(name)| - 1 <= ELEKTRA_MAX_ARRAY_SIZE - 2
  {
    hide Leading;
    var n := Leading(name[1..], true);
    LeadingBounds(name[1..], true);
    LeadingBounds(name[1..][n..], false);
  }

  lemma LeadingBounds(s: seq<byte>, underscores: bool)
    ensures Leading(s, underscores) <= |s|
  {
  }

  /** Accepted names are the right shape with anything behind that does not go on with a digit. */
  lemma Shape(name: seq<byte>) returns (s: seq<byte>)
    requires Accepted(name)
    ensures var ds := DigitsIn(name);
      ds != [] && |ds| <= 10 && name == [HASH] + (Repeat(UNDERSCORE, |ds| - 1) + (ds + s)) && (s == [] || !IsDigit(s[0]))
  {
    hide Leading, Repeat, DigitsIn, Accepted;
    AcceptedNotEmpty(name);
    DigitsInIs(name);
    var rest := name[1..];
    var u := Leading(rest, true);
    var behind := rest[u..];
    LeadingMeans(rest, true);
    LeadingMeans(behind, false);
    s := behind[Leading(behind, false)..];
    AllSame(rest[..u]);
    assert rest == rest[..u] + behind && behind == DigitsIn(name) + s;
  }

  lemma LeadingMeans(s: seq<byte>, underscores: bool)
    ensures var n := Leading(s, underscores);
      && n <= |s|
      && (underscores ==> forall i | 0 <= i < n :: s[i] == UNDERSCORE)
      && (!underscores && n < |s| ==> !IsDigit(s[n]))
  {
  }

  lemma AllSame(s: seq<byte>)
    requires forall i | 0 <= i < |s| :: s[i] == UNDERSCORE
    ensures s == Repeat(UNDERSCORE, |s|)
  {
  }

  /** Written names are accepted and read back to the same number. */
  lemma ReadWritten(n: nat)
    requires n < LIMIT
    ensures Accepted(ArrayName(n)) && DigitsIn(ArrayName(n)) == Digits(n) && Value(DigitsIn(ArrayName(n))) == n
  {
    FitsExactlyIf(n);
    assert Digits(n) + [] == Digits(n);
    Apart(Digits(n), []);
    ValueOfDigits(n);
  }

  /** A written name in the shape that names are read in. */
  lemma WrittenShape(n: nat)
    ensures var ds := Digits(n);
      && AllDigits(ds) && ds != [] && (|ds| > 1 ==> ds[0] != ZERO)
      && ArrayName(n) == [HASH] + (Repeat(UNDERSCORE, |ds| - 1) + (ds + []))
  {
    assert Digits(n) + [] == Digits(n);
  }

  lemma ShapeSize(ds: seq<byte>, s: seq<byte>)
    requires ds != []
    ensures |[HASH] + (Repeat(UNDERSCORE, |ds| - 1) + (ds + s))| == 2 * |ds| + |s|
  {
  }

  lemma AcceptedDigits(name: seq<byte>)
    requires Accepted(name)
    ensures name != [] && AllDigits(DigitsIn(name)) && DigitsIn(name) != []
  {
    var _ := Shape(name);
  }

  /** An accepted name is a written one exactly if nothing follows the digits and they have no leading zero. */
  lemma WrittenExactlyIf(name: seq<byte>)
    requires Accepted(name)
    ensures var ds := DigitsIn(name);
      (exists n :: name == ArrayName(n)) <==> |name| == 2 * |ds| && (|ds| == 1 || ds[0] != ZERO)
  {
    hide *;
    AcceptedDigits(name);
    var s := Shape(name);
    var ds := DigitsIn(name);
    ShapeSize(ds, s);
    if |name| == 2 * |ds| && (|ds| == 1 || ds[0] != ZERO) {
      DigitsOfValue(ds);
      WrittenShape(Value(ds));
      assert name == ArrayName(Value(ds));
    }
    forall n | name == ArrayName(n)
      ensures |name| == 2 * |ds| && (|ds| == 1 || ds[0] != ZERO)
    {
      WrittenShape(n);
      Apart(Digits(n), []);
      ShapeSize(Digits(n), []);
    }
  }

  /** "#1a" and "#_01" are accepted, but no index is written like that. */
  lemma AcceptedButNotWritten()
    ensures Accepted([HASH, 49, 97]) && forall n :: [HASH, 49, 97] != ArrayName(n)
    ensures Accepted([HASH, UNDERSCORE, ZERO, 49]) && forall n :: [HASH, UNDERSCORE, ZERO, 49] != ArrayName(n)
  {
    Apart([49], [97]);
    assert [HASH] + (Repeat(UNDERSCORE, 0) + ([49] + [97])) == [HASH, 49, 97];
    WrittenExactlyIf([HASH, 49, 97]);
    Apart([ZERO, 49], []);
    assert [HASH] + (Repeat(UNDERSCORE, 1) + ([ZERO, 49] + [])) == [HASH, UNDERSCORE, ZERO, 49];
    WrittenExactlyIf([HASH, UNDERSCORE, ZERO, 49]);
  }

  // ---------- order ----------

  lemma {:induction false} CompareSameLength(x: seq<byte>, y: seq<byte>, s: seq<byte>, t: seq<byte>)
    requires |x| == |y|
    ensures Compare(x + s, y + t) == if Compare(x, y) != 0 then Compare(x, y) else Compare(s, t)
  {
    if x == [] {
      assert x + s == s && y + t == t;
    } else {
      assert (x + s)[1..] == x[1..] + s && (y + t)[1..] == y[1..] + t;
      if x[0] == y[0] {
        CompareSameLength(x[1..], y[1..], s, t);
      }
    }
  }

  lemma {:induction false} LongerIsGreater(m: nat, n: nat)
    requires m <= n
    ensures |Digits(m)| <= |Digits(n)|
  {
    if m >= 10 {
      LongerIsGreater(m / 10, n / 10);
    }
  }

  /** Digits of the same length compare as the numbers. */
  lemma {:induction false} CompareDigits(m: nat, n: nat)
    requires m < n && |Digits(m)| == |Digits(n)|
    ensures Compare(Digits(m), Digits(n)) < 0
  {
    if n >= 10 {
      var d, e := [ZERO + (m % 10) as byte], [ZERO + (n % 10) as byte];
      CompareSameLength(Digits(m / 10), Digits(n / 10), d, e);
      CompareAntisymmetric(Digits(m / 10), Digits(n / 10));
      if m / 10 < n / 10 {
        CompareDigits(m / 10, n / 10);
      }
    }
  }

  /** Bytes order array names as the numbers are ordered, whatever comes behind them. */
  lemma OrderIsNumeric(m: nat, n: nat, s: seq<byte>, t: seq<byte>)
    requires m < n
    ensures Compare(ArrayName(m) + s, ArrayName(n) + t) < 0
  {
    var a, b := |Digits(m)|, |Digits(n)|;
    LongerIsGreater(m, n);
    var p := [HASH] + Repeat(UNDERSCORE, a - 1);
    Assoc([HASH], Repeat(UNDERSCORE, a - 1), Digits(m));
    Assoc(p, Digits(m), s);
    if a == b {
      Assoc([HASH], Repeat(UNDERSCORE, a - 1), Digits(n));
      Assoc(p, Digits(n), t);
      ComparePrefixed(p, Digits(m) + s, Digits(n) + t);
      CompareSameLength(Digits(m), Digits(n), s, t);
      CompareDigits(m, n);
    } else {
      RepeatSplit(UNDERSCORE, a - 1, b - a);
      var q := Repeat(UNDERSCORE, b - a) + Digits(n);
      Assoc(Repeat(UNDERSCORE, a - 1), Repeat(UNDERSCORE, b - a), Digits(n));
      Assoc([HASH], Repeat(UNDERSCORE, a - 1), q);
      Assoc(p, q, t);
      ComparePrefixed(p, Digits(m) + s, q + t);
      assert (q + t)[0] == UNDERSCORE && (Digits(m) + s)[0] <= NINE;
    }
  }

  lemma OrderExactly(m: nat, n: nat)
    ensures Compare(ArrayName(m), ArrayName(n)) < 0 <==> m < n
    ensures Compare(ArrayName(m), ArrayName(n)) == 0 <==> m == n
  {
    assert ArrayName(m) + [] == ArrayName(m) && ArrayName(n) + [] == ArrayName(n);
    CompareAntisymmetric(ArrayName(m), ArrayName(n));
    if m < n {
      OrderIsNumeric(m, n, [], []);
    } else if n < m {
      OrderIsNumeric(n, m, [], []);
    }
  }

  // ---------- the next element of an array ----------

  /** The index after the one in the base name, if the name is accepted. */
  function NextIndex(base: seq<byte>): Option<nat> {
    if base == [HASH] then Some(0) else if Accepted(base) then Some(Value(DigitsIn(base)) + 1) else None
  }

  /** The index after a written one is the next number, and the first one is 0. */
  lemma NextOfWritten(n: nat)
    requires n < LIMIT
    ensures NextIndex([HASH]) == Some(0) && NextIndex(ArrayName(n)) == Some(n + 1)
  {
    hide Digits, Accepted, DigitsIn, ArrayName;
    ReadWritten(n);
    WrittenNotEmpty(n);
  }

  lemma WrittenNotEmpty(n: nat)
    ensures ArrayName(n) != [HASH] && |ArrayName(n)| > 1
  {
  }

  /** "#0", "#9" and "#_10". */
  lemma SomeNames()
    ensures ArrayName(0) == [HASH, 48] && ArrayName(9) == [HASH, 57] && ArrayName(10) == [HASH, UNDERSCORE, 49, 48]
  {
    assert Digits(1) == [49] && Digits(10) == Digits(1) + [48];
    assert Repeat(UNDERSCORE, 0) == [] && Repeat(UNDERSCORE, 1) == [UNDERSCORE] + Repeat(UNDERSCORE, 0);
  }

  /** elektraArrayIncName: from "#" to "#0", from one index to the next; -1 if the name is not accepted. */
  method IncName(key: NamedKey) returns (ret: int)
    requires key.Valid() && (key.named && key.key == [] ==> |key.ukey| == 1)
    requires key.named && NextIndex(BaseOf(Parse(key.key))).Some? ==> NextIndex(BaseOf(Parse(key.key))).value < LIMIT
    modifies key
    ensures key.Valid() && key.readOnly == old(key.readOnly)
    ensures var n := Parse(old(key.key)); var next := NextIndex(if old(key.named) then BaseOf(n) else []);
      && ret == (if next.Some? then 0 else -1)
      && (next.None? || key.readOnly ==> key.key == old(key.key))
      && (next.Some? && !key.readOnly ==> key.key == NamedKeys.Child(Up(n), ArrayName(next.value)).Render())
  {
    hide Split, UnescapedName, Canonical, Parse, Escape, Name.Render, Name.Valid, Path;
    hide NamedKeys.Child, Up, BaseOf, NextIndex;
    NoBase(Parse(key.key));
    var baseName := key.BaseName();
    var newIndex := OldIndex(baseName);
    if newIndex == -2 {
      return -1;
    }
    newIndex := newIndex + 1;
    var newName := NameOf(newIndex);
    var _ := key.SetBaseName(Some(newName));
    ret := 0;
  }

  /** The index in the base name, -1 for the start of an array, -2 for any other name. */
  method OldIndex(baseName: seq<byte>) returns (oldIndex: int)
    ensures oldIndex == if NextIndex(baseName).Some? then NextIndex(baseName).value - 1 else -2
  {
    hide Accepted, DigitsIn;
    var arrayElement := ValidateName(baseName);
    if arrayElement == -1 {
      return -2;
    }
    oldIndex := -1;
    if arrayElement != 0 {
      AcceptedNotEmpty(baseName);
      oldIndex := ReadArrayNumber(baseName);
    }
  }

  /** The new name in a buffer on the stack. */
  method NameOf(newIndex: nat) returns (name: seq<byte>)
    requires newIndex < LIMIT
    ensures name == ArrayName(newIndex) && NulFree(name)
  {
    hide ArrayName;
    var newName := new byte[ELEKTRA_MAX_ARRAY_SIZE];
    var _ := WriteArrayNumber(newName, newIndex);
    ArrayNameNulFree(newIndex);
    var length := StringLength(newName, ArrayName(newIndex));
    name := newName[..length];
  }

  lemma NoBase(n: Name)
    ensures n.parts == [] ==> BaseOf(n) == []
    ensures NextIndex([]) == None
  {
  }

  lemma AcceptedNotEmpty(name: seq<byte>)
    requires Accepted(name)
    ensures name != [] && name != [HASH]
  {
  }

  /** The digits behind the underscores, as sscanf reads them. */
  method ReadArrayNumber(name: seq<byte>) returns (oldIndex: int)
    requires name != []
    ensures oldIndex == Value(DigitsIn(name))
  {
    var baseName := name[1..];
    baseName := baseName[Leading(baseName, true)..];
    oldIndex := 0;
    ghost var ds := DigitsIn(name);
    for i := 0 to Leading(baseName, false)
      invariant oldIndex == Value(ds[..i])
    {
      assert ds[..i + 1][..i] == ds[..i];
      oldIndex := 10 * oldIndex + (baseName[i] - ZERO) as int;
    }
    assert ds[..|ds|] == ds;
  }

  lemma ArrayNameNulFree(n: nat)
    ensures NulFree(ArrayName(n))
  {
  }

  /** strlen */
  method StringLength(buffer: array<byte>, ghost s: seq<byte>) returns (length: nat)
    requires |s| < buffer.Length && buffer[..|s| + 1] == s + [NUL] && NulFree(s)
    ensures length == |s| && buffer[..length] == s
  {
    length := 0;
    assert forall i | 0 <= i <= |s| :: buffer[i] == (s + [NUL])[i];
    while buffer[length] != NUL
      invariant length <= |s|
      decreases |s| - length
    {
      length := length + 1;
    }
    assert buffer[..length] == s;
  }

  /** The name of element n below a parent. */
  function Element(parent: Name, n: nat): Name {
    NamedKeys.Child(parent, ArrayName(n))
  }

  lemma ElementValid(parent: Name, n: nat)
    requires parent.Valid()
    ensures Element(parent, n).Valid() && BaseOf(Element(parent, n)) == ArrayName(n) && Up(Element(parent, n)) == parent
  {
    hide ArrayName, Escape, ValidPart, Unescape;
    ArrayNameNulFree(n);
    EscapeIsValid(ArrayName(n));
    UnescapeEscape(ArrayName(n));
    BaseNameRoundTrip(parent, ArrayName(n));
  }

  /** Below one parent the order of the names is the order of the base names. */
  lemma UnescapedElement(parent: Name, n: nat) returns (prefix: seq<byte>)
    requires parent.Valid()
    ensures Unescaped(Element(parent, n)) == prefix + (ArrayName(n) + [NUL])
    ensures prefix == (if parent.root == [] then [NUL] else []) + UnescapedParts(parent.Levels())
  {
    hide ArrayName, Escape, Unescape, UnescapedParts, ValidPart, Unescaped;
    ElementValid(parent, n);
    UnescapedOf(Element(parent, n));
    UnescapeEscape(ArrayName(n));
    var part := Escape(ArrayName(n));
    assert Element(parent, n).Levels() == parent.Levels() + [part];
    UnescapedPartsConcat(parent.Levels(), [part]);
    UnescapedOne(part);
    prefix := (if parent.root == [] then [NUL] else []) + UnescapedParts(parent.Levels());
    Assoc(if parent.root == [] then [NUL] else [], UnescapedParts(parent.Levels()), UnescapedParts([part]));
  }

  /** Elements of one array are ordered by their indices, whoever owns them. */
  lemma ElementsInOrder(parent: Name, m: nat, n: nat, a: Ident, b: Ident)
    requires parent.Valid() && a.name == Element(parent, m) && b.name == Element(parent, n) && m < n
    ensures CompareIdents(a, b) < 0
  {
    hide ArrayName, Unescaped, Element;
    var prefix := UnescapedElement(parent, m);
    var same := UnescapedElement(parent, n);
    CompareByNameIsLexicographic(Unescaped(a.name), Unescaped(b.name));
    ComparePrefixed(prefix, ArrayName(m) + [NUL], ArrayName(n) + [NUL]);
    OrderIsNumeric(m, n, [NUL], [NUL]);
  }

  /** Some index for every key: the keyset holds elements of one array. */
  ghost predicate IsArray(keys: seq<Key>, parent: Name, index: seq<nat>) {
    |index| == |keys| && forall i | 0 <= i < |keys| :: index[i] < LIMIT - 1 && keys[i].id.name == Element(parent, index[i])
  }

  /** The last key has the greatest index, and the key with the next index comes after all. */
  lemma NextElement(keys: seq<Key>, contents: map<Ident, Key>, parent: Name, index: seq<nat>, next: Ident)
    requires Sorted(keys) && AllNamed(keys) && Represents(keys, contents) && keys != []
    requires parent.Valid() && IsArray(keys, parent, index) && next.name == Element(parent, index[|index| - 1] + 1)
    ensures next !in contents
    ensures forall i | 0 <= i < |index| :: index[i] <= index[|index| - 1]
    ensures forall k | k in keys :: CompareIdents(k.id, next) < 0
  {
    hide CompareIdents, Name.Valid, Element;
    var n := |index| - 1;
    forall i | 0 <= i < |index|
      ensures index[i] <= index[n] && CompareIdents(keys[i].id, next) < 0
    {
      if index[i] > index[n] {
        ElementsInOrder(parent, index[n], index[i], keys[n].id, keys[i].id);
        CompareIdentsAntisymmetric(keys[n].id, keys[i].id);
      }
      ElementsInOrder(parent, index[i], index[n] + 1, keys[i].id, next);
    }
    if next in contents {
      var i :| 0 <= i < |keys| && keys[i] == contents[next];
      CompareIdentsAntisymmetric(next, next);
    }
  }

  /** elektraArrayGetNextKey: an element that comes after all others, and is not in the array yet. */
  method GetNextKey(arrayKeys: KeySet, parent: Name, ghost index: seq<nat>, ghost ext: map<Key, nat>)
    returns (newKey: Key?)
    requires arrayKeys.Valid() && arrayKeys.Accounts(ext) && parent.Valid() && IsArray(arrayKeys.keys, parent, index)
    modifies arrayKeys, arrayKeys.arr, arrayKeys.keys
    ensures arrayKeys.Valid() && arrayKeys.Accounts(ext)
    ensures arrayKeys.keys == old(arrayKeys.keys) && arrayKeys.contents == old(arrayKeys.contents)
    ensures newKey == null <==> arrayKeys.keys == []
    ensures newKey != null ==> fresh(newKey) && newKey.id !in arrayKeys.contents
    ensures newKey != null ==> newKey.id.name == Element(parent, index[|index| - 1] + 1)
    ensures newKey != null ==> forall i | 0 <= i < |index| :: index[i] <= index[|index| - 1]
    ensures newKey != null ==> forall k | k in arrayKeys.keys :: CompareIdents(k.id, newKey.id) < 0
  {
    hide KeySet.Valid, KeySet.Accounts, CompareIdents, Name.Valid, Element, Sorted, AllNamed, Represents, Adds;
    arrayKeys.ValidShape();
    arrayKeys.ValidSorted();
    arrayKeys.AllIn(ext);
    ghost var keys, contents := arrayKeys.keys, arrayKeys.contents;
    var last := arrayKeys.Pop(ext);
    if last == null {
      return null;
    }
    PutBack(last, keys, contents);
    var _ := arrayKeys.AppendKey(last, ext);
    SameAgain(arrayKeys, keys, contents);
    var name := NextName(last.id.name, parent, index[|index| - 1]);
    NextElement(keys, contents, parent, index, Ident(name, last.id.owner));
    newKey := new Key(Ident(name, last.id.owner), true);
  }

  lemma AcceptedAfterReading(n: nat)
    requires n < LIMIT
    ensures Accepted(ArrayName(n)) && ArrayName(n) != [HASH]
  {
    hide ArrayName;
    ReadWritten(n);
    AcceptedNotEmpty(ArrayName(n));
  }

  lemma ElementFacts(parent: Name, n: nat)
    requires parent.Valid() && n < LIMIT
    ensures var e := Element(parent, n); var base := BaseOf(e);
      && e.Valid() && base == ArrayName(n) && Up(e) == parent && e == NamedKeys.Child(parent, ArrayName(n))
      && NextIndex(base) == Some(n + 1)
      && Parse(e.Render()) == e && e.Render() != []
  {
    hide ArrayName, DigitsIn, Accepted, Escape, Parse, Name.Render, BaseOf, Up, Name.Valid;
    AcceptedAfterReading(n);
    ElementValid(parent, n);
    ReadWritten(n);
    ValidIsReadable(Element(parent, n));
    ParseRender(Element(parent, n));
    RenderStart(Element(parent, n));
  }

  /** Popping the last key and appending it again changes nothing. */
  lemma PutBack(last: Key, keys: seq<Key>, contents: map<Ident, Key>)
    requires keys != [] && last == keys[|keys| - 1] && AllNamed(keys)
    requires Represents(keys, contents)
    ensures last.named && last.id.name.Valid() && last.id in contents && contents[last.id] == last
    ensures (contents - {last.id})[last.id := last] == contents
  {
  }

  lemma SameAgain(ks: KeySet, keys: seq<Key>, contents: map<Ident, Key>)
    requires ks.Valid() && ks.contents == contents && Sorted(keys) && AllNamed(keys) && Represents(keys, contents)
    ensures ks.keys == keys
  {
    hide *;
    ks.ValidSorted();
    RepresentationUnique(ks.keys, keys, contents);
  }

  /** keyDup and elektraArrayIncName. */
  method NextName(name: Name, parent: Name, ghost n: nat) returns (next: Name)
    requires parent.Valid() && name == Element(parent, n) && n < LIMIT - 1
    ensures next == Element(parent, n + 1) && next.Valid()
  {
    hide ArrayName, NextIndex, BaseOf, Parse, Up, NamedKeys.Child, Name.Render, Name.Valid, Canonical;
    ElementFacts(parent, n);
    ElementFacts(parent, n + 1);
    var key := new NamedKey.Dup(name);
    var _ := IncName(key);
    next := Parse(key.key);
  }
}
