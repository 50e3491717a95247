/** Base64 as in section 4 of RFC 4648 (base64_functions.c). */
module Base64 {
  import opened Bytes

  const PADDING: byte := 61

  /** The alphabet of table 1. */
  function Letter(i: nat): (c: byte)
    requires i < 64
    ensures c != PADDING && c != NUL
  {
    if i < 26 then (65 + i) as byte
    else if i < 52 then (71 + i) as byte
    else if i < 62 then (i - 4) as byte
    else if i == 62 then 43 else 47
  }

  /** The position of a letter; padding counts as position 0. */
  function Index(c: byte): (r: Option<nat>)
    ensures r.Some? ==> r.value < 64
  {
    var n := c as int;
    if c == PADDING then Some(0)
    else if 65 <= n < 91 then Some(n - 65)
    else if 97 <= n < 123 then Some(n - 71)
    else if 48 <= n < 58 then Some(n + 4)
    else if n == 43 then Some(62)
    else if n == 47 then Some(63)
    else None
  }

  /** Table 1 of RFC 4648. */
  lemma LetterIs(i: nat)
    requires i < 64
    ensures var alphabet := "ABCDEFGHIJKLMNOPQRSTUVWXYZabcdefghijklmnopqrstuvwxyz0123456789+/";
      |alphabet| == 64 && Letter(i) as int == alphabet[i] as int
  {
    var upper, lower, digits := "ABCDEFGHIJKLMNOPQRSTUVWXYZ", "abcdefghijklmnopqrstuvwxyz", "0123456789";
    assert forall j | 0 <= j < 26 :: upper[j] as int == 65 + j && lower[j] as int == 97 + j;
    assert forall j | 0 <= j < 10 :: digits[j] as int == 48 + j;
  }

  lemma IndexOfLetter(i: nat)
    requires i < 64
    ensures Index(Letter(i)) == Some(i)
  {
  }

  lemma LetterOfIndex(c: byte)
    requires c != PADDING && Index(c).Some?
    ensures Letter(Index(c).value) == c
  {
  }

  /** getBase64Index: None stands for the error flag. */
  method GetBase64Index(c: byte) returns (r: Option<nat>)
    ensures r == Index(c)
  {
    if c == PADDING {
      return Some(0);
    }
    for i := 0 to 64
      invariant forall j | 0 <= j < i :: Letter(j) != c
    {
      if Letter(i) == c {
        IndexOfLetter(i);
        return Some(i);
      }
    }
    if Index(c).Some? {
      LetterOfIndex(c);
    }
    r := None;
  }

  // ---------- groups ----------

  /** The four six-bit numbers of three bytes, with the shifts and masks of the code written out. */
  function Sixes(b0: byte, b1: byte, b2: byte): (r: (nat, nat, nat, nat))
    ensures r.0 < 64 && r.1 < 64 && r.2 < 64 && r.3 < 64
  {
    var x, y, z := b0 as int, b1 as int, b2 as int;
    (x / 4, (x * 16 + y / 16) % 64, (y * 4 + z / 64) % 64, z % 64)
  }

  function Byte0(i0: nat, i1: nat): byte {
    ((i0 * 4 + i1 / 16) % 256) as byte
  }

  function Byte1(i1: nat, i2: nat): byte {
    ((i1 * 16 + i2 / 4) % 256) as byte
  }

  function Byte2(i2: nat, i3: nat): byte {
    ((i2 * 64 + i3) % 256) as byte
  }

  lemma By4(q: int, r: int)
    requires 0 <= r < 4
    ensures (q * 4 + r) / 4 == q && (q * 4 + r) % 4 == r
  {
  }

  lemma By16(q: int, r: int)
    requires 0 <= r < 16
    ensures (q * 16 + r) / 16 == q && (q * 16 + r) % 16 == r
  {
  }

  lemma By64(q: int, r: int)
    requires 0 <= r < 64
    ensures (q * 64 + r) / 64 == q && (q * 64 + r) % 64 == r
  {
  }

  lemma By256(q: int, r: int)
    requires 0 <= r < 256
    ensures (q * 256 + r) / 256 == q && (q * 256 + r) % 256 == r
  {
  }

  /** Without the masks: the bits that a shift pushes out are those a mask removes. */
  lemma SixesAre(b0: byte, b1: byte, b2: byte)
    ensures var x, y, z := b0 as int, b1 as int, b2 as int;
      Sixes(b0, b1, b2) == (x / 4, x % 4 * 16 + y / 16, y % 16 * 4 + z / 64, z % 64)
  {
    var x, y, z := b0 as int, b1 as int, b2 as int;
    By64(x / 4, x % 4 * 16 + y / 16);
    By64(y / 16, y % 16 * 4 + z / 64);
    assert x * 16 + y / 16 == x / 4 * 64 + (x % 4 * 16 + y / 16);
    assert y * 4 + z / 64 == y / 16 * 64 + (y % 16 * 4 + z / 64);
  }

  /** The 24 bits of a group are the same, read as three bytes or as four times six bits. */
  lemma SameBits(b0: byte, b1: byte, b2: byte)
    ensures var s := Sixes(b0, b1, b2);
      b0 as int * 0x1_0000 + b1 as int * 0x100 + b2 as int == s.0 * 0x4_0000 + s.1 * 0x1000 + s.2 * 0x40 + s.3
  {
    hide Sixes;
    SixesAre(b0, b1, b2);
  }

  /** Six-bit numbers give back the bytes. */
  lemma BytesOfSixes(b0: byte, b1: byte, b2: byte)
    ensures var s := Sixes(b0, b1, b2);
      Byte0(s.0, s.1) == b0 && Byte1(s.1, s.2) == b1 && Byte2(s.2, s.3) == b2
  {
    hide *;
    var x, y, z := b0 as int, b1 as int, b2 as int;
    SixesAre(b0, b1, b2);
    FirstByte(x, y / 16);
    SecondByte(x % 4, y, z / 64);
    ThirdByte(y % 16, z);
  }

  lemma FirstByte(x: int, high: int)
    requires 0 <= x < 256 && 0 <= high < 16
    ensures Byte0(x / 4, x % 4 * 16 + high) == x as byte
  {
    By16(x % 4, high);
  }

  lemma SecondByte(low: int, y: int, high: int)
    requires 0 <= low < 4 && 0 <= y < 256 && 0 <= high < 4
    ensures Byte1(low * 16 + y / 16, y % 16 * 4 + high) == y as byte
  {
    By4(y % 16, high);
    assert (low * 16 + y / 16) * 16 + y % 16 == low * 256 + y;
    By256(low, y);
  }

  lemma ThirdByte(low: int, z: int)
    requires 0 <= low < 16 && 0 <= z < 256
    ensures Byte2(low * 4 + z / 64, z % 64) == z as byte
  {
    assert (low * 4 + z / 64) * 64 + z % 64 == low * 256 + z;
    By256(low, z);
  }

  /** Bytes give back the six-bit numbers. */
  lemma SixesOfBytes(i0: nat, i1: nat, i2: nat, i3: nat)
    requires i0 < 64 && i1 < 64 && i2 < 64 && i3 < 64
    ensures Sixes(Byte0(i0, i1), Byte1(i1, i2), Byte2(i2, i3)) == (i0, i1, i2, i3)
  {
    hide Sixes;
    SixesAre(Byte0(i0, i1), Byte1(i1, i2), Byte2(i2, i3));
    BytesAre(i0, i1, i2, i3);
    hide Byte0, Byte1, Byte2;
    By4(i0, i1 / 16);
    By16(i1 % 16, i2 / 4);
    By64(i2 % 4, i3);
  }

  lemma BytesAre(i0: nat, i1: nat, i2: nat, i3: nat)
    requires i0 < 64 && i1 < 64 && i2 < 64 && i3 < 64
    ensures Byte0(i0, i1) as int == i0 * 4 + i1 / 16
    ensures Byte1(i1, i2) as int == i1 % 16 * 16 + i2 / 4
    ensures Byte2(i2, i3) as int == i2 % 4 * 64 + i3
  {
    By256(i1 / 16, i1 % 16 * 16 + i2 / 4);
    assert i1 * 16 + i2 / 4 == i1 / 16 * 256 + (i1 % 16 * 16 + i2 / 4);
    By256(i2 / 4, i2 % 4 * 64 + i3);
    assert i2 * 64 + i3 == i2 / 4 * 256 + (i2 % 4 * 64 + i3);
  }

  // ---------- whole values ----------

  function Encode(s: seq<byte>): seq<byte> {
    if s == [] then []
    else if |s| == 1 then
      var x := Sixes(s[0], 0, 0);
      [Letter(x.0), Letter(x.1), PADDING, PADDING]
    else if |s| == 2 then
      var x := Sixes(s[0], s[1], 0);
      [Letter(x.0), Letter(x.1), Letter(x.2), PADDING]
    else
      var x := Sixes(s[0], s[1], s[2]);
      [Letter(x.0), Letter(x.1), Letter(x.2), Letter(x.3)] + Encode(s[3..])
  }

  /** What base64Decode accepts: whole groups of letters and padding, wherever the padding stands. */
  predicate Decodable(e: seq<byte>) {
    |e| % 4 == 0 && forall i | 0 <= i < |e| :: Index(e[i]).Some?
  }

  function DecodeGroup(c0: byte, c1: byte, c2: byte, c3: byte): (r: seq<byte>)
    requires Index(c0).Some? && Index(c1).Some? && Index(c2).Some? && Index(c3).Some?
    ensures |r| == 1 + (if c2 != PADDING then 1 else 0) + (if c3 != PADDING then 1 else 0)
  {
    var i0, i1, i2, i3 := Index(c0).value, Index(c1).value, Index(c2).value, Index(c3).value;
    [Byte0(i0, i1)] + (if c2 != PADDING then [Byte1(i1, i2)] else []) + (if c3 != PADDING then [Byte2(i2, i3)] else [])
  }

  /** The bytes base64Decode writes. */
  function Written(e: seq<byte>): seq<byte>
    requires Decodable(e)
  {
    if e == [] then [] else DecodeGroup(e[0], e[1], e[2], e[3]) + Written(e[4..])
  }

  /** The length base64Decode computes in advance, looking at the end only. */
  function DecodedLength(e: seq<byte>): nat
    requires |e| % 4 == 0
  {
    if e == [] then 0
    else |e| / 4 * 3 - (if e[|e| - 1] == PADDING then 1 else 0) - (if e[|e| - 2] == PADDING then 1 else 0)
  }

  /** Which strings these are, by the alphabet. */
  lemma DecodableMeans(e: seq<byte>)
    ensures Decodable(e) <==>
      |e| % 4 == 0 && forall i | 0 <= i < |e| :: e[i] == PADDING || exists j | 0 <= j < 64 :: e[i] == Letter(j)
  {
    hide Letter;
    forall c: byte
      ensures Index(c).Some? <==> c == PADDING || exists j | 0 <= j < 64 :: c == Letter(j)
    {
      if c != PADDING && Index(c).Some? {
        LetterOfIndex(c);
      }
      if j :| 0 <= j < 64 && c == Letter(j) {
        IndexOfLetter(j);
      }
    }
  }

  /** What a group is decoded to: the 24 bits of four positions, and for each padding in the second half a byte less. */
  lemma GroupMeans(c: seq<byte>, i: seq<nat>)
    requires |c| == |i| == 4 && forall k | 0 <= k < 4 :: Index(c[k]) == Some(i[k])
    ensures Decodable(c)
    ensures Written(c) == [(i[0] * 4 + i[1] / 16) as byte]
                          + (if c[2] == PADDING then [] else [(i[1] % 16 * 16 + i[2] / 4) as byte])
                          + (if c[3] == PADDING then [] else [(i[2] % 4 * 64 + i[3]) as byte])
  {
    hide Index, Byte0, Byte1, Byte2;
    BytesAre(i[0], i[1], i[2], i[3]);
    assert c[4..] == [] && Written(c[4..]) == [];
  }

  /** Groups are decoded one by one. */
  lemma {:induction false} WrittenConcat(d: seq<byte>, e: seq<byte>)
    requires Decodable(d) && Decodable(e)
    ensures Decodable(d + e) && Written(d + e) == Written(d) + Written(e)
  {
    hide Index, DecodeGroup;
    if d == [] {
      assert [] + e == e && Written([]) + Written(e) == Written(e);
    } else {
      WrittenConcat(d[4..], e);
      assert (d + e)[4..] == d[4..] + e;
    }
  }

  /** No padding in the second half of a group, except in the last group. */
  predicate PaddedAtEnd(e: seq<byte>) {
    forall i | 0 <= i < |e| - 4 && i % 4 >= 2 :: e[i] != PADDING
  }

  /** Never more is written than was computed; exactly that much if padding stands at the end only. */
  lemma {:induction false} WrittenFits(e: seq<byte>)
    requires Decodable(e)
    ensures |Written(e)| <= DecodedLength(e)
    ensures |Written(e)| == DecodedLength(e) <==> PaddedAtEnd(e)
  {
    if |e| > 4 {
      var rest := e[4..];
      WrittenFits(rest);
      assert rest[|rest| - 1] == e[|e| - 1] && rest[|rest| - 2] == e[|e| - 2];
      assert |e| / 4 == |rest| / 4 + 1;
      if PaddedAtEnd(e) {
        assert forall i | 0 <= i < |rest| :: rest[i] == e[i + 4];
        assert e[2] != PADDING && e[3] != PADDING;
      }
      if PaddedAtEnd(rest) && e[2] != PADDING && e[3] != PADDING {
        forall i | 0 <= i < |e| - 4 && i % 4 >= 2
          ensures e[i] != PADDING
        {
          if i >= 4 {
            assert rest[i - 4] == e[i];
          }
        }
      }
    }
  }

  /** "AA==AAAA" is decoded, but the last two bytes of its buffer are never written. */
  lemma BufferNotFilled()
    ensures var e: seq<byte> := [65, 65, PADDING, PADDING, 65, 65, 65, 65];
      Decodable(e) && |Written(e)| == 4 && DecodedLength(e) == 6
  {
    var e: seq<byte> := [65, 65, PADDING, PADDING, 65, 65, 65, 65];
    assert e[4..] == [65, 65, 65, 65] && e[4..][4..] == [];
    assert |Written(e[4..])| == 3;
  }

  /** The group an encoded value begins with. */
  lemma EncodeHead(s: seq<byte>)
    requires |s| >= 3
    ensures var e := Encode(s); |e| >= 4 && e[4..] == Encode(s[3..])
    ensures var e := Encode(s); var x := Sixes(s[0], s[1], s[2]);
      e[0] == Letter(x.0) && e[1] == Letter(x.1) && e[2] == Letter(x.2) && e[3] == Letter(x.3)
  {
  }

  /** One group, decoded. */
  lemma GroupRoundTrip(b0: byte, b1: byte, b2: byte)
    ensures var x := Sixes(b0, b1, b2);
      && Index(Letter(x.0)) == Some(x.0) && Index(Letter(x.1)) == Some(x.1)
      && Index(Letter(x.2)) == Some(x.2) && Index(Letter(x.3)) == Some(x.3)
      && DecodeGroup(Letter(x.0), Letter(x.1), Letter(x.2), Letter(x.3)) == [b0, b1, b2]
      && DecodeGroup(Letter(x.0), Letter(x.1), Letter(x.2), PADDING) == [b0, b1]
      && DecodeGroup(Letter(x.0), Letter(x.1), PADDING, PADDING) == [b0]
  {
    var x := Sixes(b0, b1, b2);
    BytesOfSixes(b0, b1, b2);
    IndexOfLetter(x.0);
    IndexOfLetter(x.1);
    IndexOfLetter(x.2);
    IndexOfLetter(x.3);
    hide Sixes, Byte0, Byte1, Byte2, Letter;
    LetterIsNotPadding(x.2);
    LetterIsNotPadding(x.3);
  }

  lemma LetterIsNotPadding(i: nat)
    requires i < 64
    ensures Letter(i) != PADDING
  {
  }

  /** Decoding inverts encoding for every value, and the computed length is the right one. */
  lemma {:induction false} RoundTrip(s: seq<byte>)
    ensures Decodable(Encode(s)) && Written(Encode(s)) == s && DecodedLength(Encode(s)) == |s|
    ensures PaddedAtEnd(Encode(s)) && |Encode(s)| == (|s| + 2) / 3 * 4
  {
    hide Index, DecodeGroup, Sixes, DecodedLength, PaddedAtEnd;
    var e := Encode(s);
    if |s| >= 3 {
      RoundTrip(s[3..]);
      EncodeHead(s);
      GroupRoundTrip(s[0], s[1], s[2]);
      assert forall i | 4 <= i < |e| :: e[i] == e[4..][i - 4];
      assert s == [s[0], s[1], s[2]] + s[3..];
    } else if |s| > 0 {
      GroupRoundTrip(s[0], if |s| == 2 then s[1] else 0, 0);
      PaddingIndex();
      assert e[4..] == [] && Written([]) == [];
    }
    EncodeEnd(s);
    WrittenFits(e);
  }

  lemma PaddingIndex()
    ensures Index(PADDING) == Some(0)
  {
  }

  /** Padding makes up for the missing bytes of the last group. */
  lemma {:induction false} EncodeEnd(s: seq<byte>)
    ensures |Encode(s)| % 4 == 0 && DecodedLength(Encode(s)) == |s|
  {
    hide Sixes, Letter;
    if |s| >= 3 {
      EncodeEnd(s[3..]);
      EncodeHead(s);
      var x, e, rest := Sixes(s[0], s[1], s[2]), Encode(s), Encode(s[3..]);
      LetterIsNotPadding(x.2);
      LetterIsNotPadding(x.3);
      assert rest != [] ==> rest[|rest| - 1] == e[|e| - 1] && rest[|rest| - 2] == e[|e| - 2];
      assert |e| == |rest| + 4;
    } else if |s| == 2 {
      LetterIsNotPadding(Sixes(s[0], s[1], 0).2);
    }
  }

  /** Different values have different encodings. */
  lemma EncodeInjective(s: seq<byte>, t: seq<byte>)
    requires Encode(s) == Encode(t)
    ensures s == t
  {
    RoundTrip(s);
    RoundTrip(t);
  }

  // ---------- which strings are encodings ----------

  /** Padding only at the end and at most two, and no bits set that do not belong to any byte. */
  predicate Canonical(e: seq<byte>)
    requires Decodable(e)
  {
    if e == [] then true
    else
      && e[0] != PADDING && e[1] != PADDING
      && if |e| == 4 && e[3] == PADDING then
           (if e[2] == PADDING then Index(e[1]).value % 16 == 0 else Index(e[2]).value % 4 == 0)
         else e[2] != PADDING && e[3] != PADDING && Canonical(e[4..])
  }

  lemma {:induction false} EncodeIsCanonical(s: seq<byte>)
    ensures Decodable(Encode(s)) && Canonical(Encode(s))
  {
    hide Sixes, Letter, DecodeGroup, Written;
    RoundTrip(s);
    if |s| >= 3 {
      EncodeIsCanonical(s[3..]);
      EncodeHead(s);
      var x := Sixes(s[0], s[1], s[2]);
      LetterIsNotPadding(x.0);
      LetterIsNotPadding(x.1);
      LetterIsNotPadding(x.2);
      LetterIsNotPadding(x.3);
    } else if |s| > 0 {
      var b1 := if |s| == 2 then s[1] else 0;
      var x := Sixes(s[0], b1, 0);
      SixesAre(s[0], b1, 0);
      IndexOfLetter(x.1);
      IndexOfLetter(x.2);
      LetterIsNotPadding(x.0);
      LetterIsNotPadding(x.1);
      LetterIsNotPadding(x.2);
    }
  }

  /** Encoding gives back a canonical string. */
  lemma {:induction false} EncodeWritten(e: seq<byte>)
    requires Decodable(e) && Canonical(e)
    ensures Encode(Written(e)) == e
  {
    hide Sixes, Index, Byte0, Byte1, Byte2;
    if e != [] {
      assert e[..4] == [e[0], e[1], e[2], e[3]] && e == e[..4] + e[4..];
      var i0, i1, i2, i3 := Index(e[0]).value, Index(e[1]).value, Index(e[2]).value, Index(e[3]).value;
      IndicesSmall(e);
      LetterBack(e[0]);
      LetterBack(e[1]);
      LetterBack(e[2]);
      LetterBack(e[3]);
      if |e| == 4 && e[3] == PADDING {
        assert e[4..] == [];
        LowBits(i1, i2);
        SixesOfBytes(i0, i1, if e[2] == PADDING then 0 else i2, 0);
      } else {
        SixesOfBytes(i0, i1, i2, i3);
        EncodeWritten(e[4..]);
        var w := Written(e);
        assert w == [Byte0(i0, i1), Byte1(i1, i2), Byte2(i2, i3)] + Written(e[4..]);
        assert w[3..] == Written(e[4..]);
      }
    }
  }

  lemma IndicesSmall(e: seq<byte>)
    requires Decodable(e) && e != []
    ensures Index(e[0]).value < 64 && Index(e[1]).value < 64 && Index(e[2]).value < 64 && Index(e[3]).value < 64
  {
  }

  lemma LetterBack(c: byte)
    requires Index(c).Some?
    ensures Index(c).value < 64 && (c != PADDING ==> Letter(Index(c).value) == c)
  {
    if c != PADDING {
      LetterOfIndex(c);
    }
  }

  lemma LowBits(i1: nat, i2: nat)
    ensures i1 % 16 == 0 ==> Byte1(i1, 0) == 0
    ensures i2 % 4 == 0 ==> Byte2(i2, 0) == 0
    ensures Byte2(0, 0) == 0
  {
    if i1 % 16 == 0 {
      assert i1 * 16 == i1 / 16 * 256;
      By256(i1 / 16, 0);
    }
    if i2 % 4 == 0 {
      assert i2 * 64 == i2 / 4 * 256;
      By256(i2 / 4, 0);
    }
  }

  /** Exactly the canonical ones among the accepted strings are encodings. */
  lemma CanonicalExactly(e: seq<byte>)
    requires Decodable(e)
    ensures Encode(Written(e)) == e <==> Canonical(e)
  {
    if Canonical(e) {
      EncodeWritten(e);
    }
    EncodeIsCanonical(Written(e));
  }

  // ---------- the two functions ----------

  method WriteGroup(encoded: array<byte>, out: nat, group: seq<byte>) returns (next: nat)
    requires out + |group| <= encoded.Length
    modifies encoded
    ensures next == out + |group| && encoded[..next] == old(encoded[..out]) + group
  {
    forall j | 0 <= j < |group| {
      encoded[out + j] := group[j];
    }
    next := out + |group|;
  }

  /** The four characters for the next three bytes, or for what is left. */
  function FirstGroup(s: seq<byte>): (group: seq<byte>)
    requires s != []
    ensures |group| == 4
  {
    if |s| == 1 then
      var x := Sixes(s[0], 0, 0);
      [Letter(x.0), Letter(x.1), PADDING, PADDING]
    else if |s| == 2 then
      var x := Sixes(s[0], s[1], 0);
      [Letter(x.0), Letter(x.1), Letter(x.2), PADDING]
    else
      var x := Sixes(s[0], s[1], s[2]);
      [Letter(x.0), Letter(x.1), Letter(x.2), Letter(x.3)]
  }

  function Left(s: seq<byte>, i: nat): seq<byte> {
    if i < |s| then s[i..] else []
  }

  lemma EncodeStep(s: seq<byte>, i: nat)
    requires i < |s|
    ensures Left(s, i) != [] && Encode(Left(s, i)) == FirstGroup(Left(s, i)) + Encode(Left(s, i + 3))
  {
    hide Sixes, Letter;
    if |s| - i >= 3 {
      assert Left(s, i)[3..] == s[i + 3..];
      assert i + 3 == |s| ==> s[i + 3..] == [];
    }
  }

  lemma EncodeEnds(s: seq<byte>, i: nat)
    ensures Encode(Left(s, 0)) == Encode(s)
    ensures i >= |s| ==> Encode(Left(s, i)) == []
  {
    assert s != [] ==> s[0..] == s;
  }

  function BufferLength(n: nat): nat {
    if n % 3 == 0 then n / 3 * 4 + 1 else (n + (3 - n % 3)) / 3 * 4 + 1
  }

  lemma EncodeLength(s: seq<byte>)
    ensures |Encode(s)| + 1 == BufferLength(|s|)
  {
    hide Encode, BufferLength;
    RoundTrip(s);
    Rounded(|s|);
  }

  lemma Rounded(n: nat)
    ensures BufferLength(n) == (n + 2) / 3 * 4 + 1
  {
    assert (n + 2) / 3 == if n % 3 == 0 then n / 3 else n / 3 + 1;
    assert n % 3 != 0 ==> (n + (3 - n % 3)) / 3 == n / 3 + 1;
  }

  /** base64Encode: the string with its terminator fills the buffer exactly. */
  method Base64Encode(input: array<byte>) returns (encoded: array<byte>)
    ensures fresh(encoded) && encoded[..] == Encode(input[..]) + [NUL]
  {
    hide Encode, Sixes, Letter, FirstGroup, Left;
    hide BufferLength;
    var inputLength := input.Length;
    var encodedLength := BufferLength(inputLength);
    EncodeLength(input[..]);
    encoded := new byte[encodedLength];
    var i, out := 0, 0;
    EncodeEnds(input[..], 0);
    assert encoded[..0] + Encode(input[..]) == Encode(input[..]);
    while i < inputLength
      invariant 0 <= i && 0 <= out < encodedLength == encoded.Length
      invariant encoded[..out] + Encode(Left(input[..], i)) == Encode(input[..])
    {
      EncodeStep(input[..], i);
      ghost var before := encoded[..out];
      ghost var group, rest := FirstGroup(Left(input[..], i)), Encode(Left(input[..], i + 3));
      Assoc(before, group, rest);
      LengthOf(before, group, rest, encodedLength - 1);
      out := EncodeOne(input, i, encoded, out);
      i := i + 3;
    }
    EncodeEnds(input[..], i);
    assert encoded[..out] + [] == encoded[..out];
    encoded[out] := NUL;
    assert encoded[..] == encoded[..out] + [NUL];
  }

  lemma LengthOf(a: seq<byte>, b: seq<byte>, c: seq<byte>, n: nat)
    requires |a + b + c| == n
    ensures |a| + |b| <= n
  {
  }

  /** One round of the loop. */
  method EncodeOne(input: array<byte>, i: nat, encoded: array<byte>, out: nat) returns (next: nat)
    requires i < input.Length && out + 4 <= encoded.Length && input != encoded
    modifies encoded
    ensures next == out + 4 && encoded[..next] == old(encoded[..out]) + FirstGroup(Left(input[..], i))
  {
    hide Sixes, Letter;
    var group;
    if input.Length - i < 3 {
      var padded := [input[i], if input.Length - i == 2 then input[i + 1] else 0, 0];
      var x := Sixes(padded[0], padded[1], padded[2]);
      group := [Letter(x.0), Letter(x.1), if input.Length - i == 2 then Letter(x.2) else PADDING, PADDING];
    } else {
      var x := Sixes(input[i], input[i + 1], input[i + 2]);
      group := [Letter(x.0), Letter(x.1), Letter(x.2), Letter(x.3)];
    }
    assert group == FirstGroup(Left(input[..], i));
    next := WriteGroup(encoded, out, group);
  }

  lemma {:induction false} WrittenNext(e: seq<byte>, i: nat)
    requires i + 4 <= |e| && i % 4 == 0 && Decodable(e[..i + 4])
    ensures Decodable(e[..i])
    ensures Written(e[..i + 4]) == Written(e[..i]) + DecodeGroup(e[i], e[i + 1], e[i + 2], e[i + 3])
  {
    hide Index, DecodeGroup;
    var a, b := e[..i + 4], e[..i];
    assert forall j | 0 <= j < i :: b[j] == a[j];
    if i == 0 {
      assert a[4..] == [] && b == [];
    } else {
      assert a[4..] == e[4..][..i] && b[4..] == e[4..][..i - 4];
      WrittenNext(e[4..], i - 4);
      Assoc(DecodeGroup(e[0], e[1], e[2], e[3]), Written(b[4..]), DecodeGroup(e[i], e[i + 1], e[i + 2], e[i + 3]));
    }
  }

  /** base64Decode: accepted or not, the output buffer is large enough for all that is written. */
  method Base64Decode(input: seq<byte>) returns (ret: int, output: array?<byte>, outputLength: nat)
    ensures ret == (if Decodable(input) then 1 else -1)
    ensures ret == 1 && input != [] ==>
      outputLength == |input| / 4 * 3 - (if input[|input| - 1] == PADDING then 1 else 0)
                                      - (if input[|input| - 2] == PADDING then 1 else 0)
    ensures ret == -1 || input == [] ==> output == null
    ensures input == [] ==> outputLength == 0
    ensures ret == 1 && input != [] ==>
      && output != null && fresh(output) && output.Length == outputLength == DecodedLength(input)
      && |Written(input)| <= output.Length && output[..|Written(input)|] == Written(input)
  {
    hide Index, DecodeGroup, Written, Byte0, Byte1, Byte2;
    if |input| == 0 {
      return 1, null, 0;
    }
    if |input| % 4 != 0 {
      return -1, null, 0;
    }
    outputLength := |input| / 4 * 3;
    if input[|input| - 1] == PADDING {
      outputLength := outputLength - 1;
    }
    if input[|input| - 2] == PADDING {
      outputLength := outputLength - 1;
    }
    var buffer := new byte[outputLength];
    var i, outputIndex := 0, 0;
    assert input[..0] == [];
    WrittenEmpty();
    while i < |input|
      invariant 0 <= i <= |input| && i % 4 == 0 && Decodable(input[..i])
      invariant 0 <= outputIndex <= i / 4 * 3 && outputIndex <= buffer.Length == DecodedLength(input)
      invariant buffer[..outputIndex] == Written(input[..i])
    {
      var ok, next := DecodeOne(input, i, buffer, outputIndex);
      if !ok {
        return -1, null, outputLength;
      }
      outputIndex := next;
      WrittenNext(input, i);
      i := i + 4;
    }
    assert input[..i] == input;
    return 1, buffer, outputLength;
  }

  lemma WrittenEmpty()
    ensures Written([]) == []
  {
  }

  /** One round of the loop. */
  method DecodeOne(input: seq<byte>, i: nat, output: array<byte>, outputIndex: nat) returns (ok: bool, next: nat)
    requires i + 4 <= |input| && i % 4 == 0 && |input| % 4 == 0 && Decodable(input[..i])
    requires outputIndex <= i / 4 * 3 && output.Length == DecodedLength(input)
    modifies output
    ensures ok <==> Decodable(input[..i + 4])
    ensures !ok ==> !Decodable(input)
    ensures ok ==>
      && next <= (i + 4) / 4 * 3 && next <= output.Length
      && output[..next] == old(output[..outputIndex]) + DecodeGroup(input[i], input[i + 1], input[i + 2], input[i + 3])
  {
    hide Index, Byte0, Byte1, Byte2;
    var r0 := GetBase64Index(input[i]);
    var r1 := GetBase64Index(input[i + 1]);
    var r2 := GetBase64Index(input[i + 2]);
    var r3 := GetBase64Index(input[i + 3]);
    ok, next := r0.Some? && r1.Some? && r2.Some? && r3.Some?, outputIndex;
    NextDecodable(input, i);
    if !ok {
      return;
    }
    RoomForGroup(input, i);
    ghost var group := DecodeGroup(input[i], input[i + 1], input[i + 2], input[i + 3]);
    output[next] := Byte0(r0.value, r1.value);
    next := next + 1;
    if input[i + 2] != PADDING {
      output[next] := Byte1(r1.value, r2.value);
      next := next + 1;
    }
    if input[i + 3] != PADDING {
      output[next] := Byte2(r2.value, r3.value);
      next := next + 1;
    }
    assert output[outputIndex..next] == group;
    assert output[..next] == output[..outputIndex] + output[outputIndex..next];
  }

  lemma NextDecodable(input: seq<byte>, i: nat)
    requires i + 4 <= |input| && i % 4 == 0 && |input| % 4 == 0 && Decodable(input[..i])
    ensures Decodable(input[..i + 4]) <==>
      Index(input[i]).Some? && Index(input[i + 1]).Some? && Index(input[i + 2]).Some? && Index(input[i + 3]).Some?
    ensures !Decodable(input[..i + 4]) ==> !Decodable(input)
  {
    hide Index;
    var a, b := input[..i + 4], input[..i];
    assert a[i] == input[i] && a[i + 1] == input[i + 1] && a[i + 2] == input[i + 2] && a[i + 3] == input[i + 3];
    assert forall j | 0 <= j < i :: a[j] == b[j];
    assert forall j | 0 <= j < i + 4 :: a[j] == input[j];
  }

  lemma RoomForGroup(input: seq<byte>, i: nat)
    requires i + 4 <= |input| && i % 4 == 0 && |input| % 4 == 0
    ensures i / 4 * 3 + 1 + (if input[i + 2] != PADDING then 1 else 0) + (if input[i + 3] != PADDING then 1 else 0)
      <= DecodedLength(input)
  {
    if i + 4 < |input| {
      assert |input| / 4 >= i / 4 + 2;
    }
  }

  /** Test vectors of section 10 of RFC 4648: "f", "fo", "foo" and "foobar". */
  lemma TestVectors()
    ensures Encode([102]) == [90, 103, PADDING, PADDING]
    ensures Encode([102, 111]) == [90, 109, 56, PADDING]
    ensures Encode([102, 111, 111]) == [90, 109, 57, 118]
    ensures Encode([102, 111, 111, 98, 97, 114]) == [90, 109, 57, 118, 89, 109, 70, 121]
  {
    var s: seq<byte> := [102, 111, 111, 98, 97, 114];
    assert s[3..] == [98, 97, 114] && s[3..][3..] == [];
    assert Encode(s[3..]) == [89, 109, 70, 121] + Encode([]);
    var foo: seq<byte> := [102, 111, 111];
    assert foo[3..] == [];
  }
}
