/** The base64 plugin: binary values become tagged strings in the storage, strings are escaped (base64.c). */
module Base64Plugin {
  import opened Bytes
  import opened Base64

  /** The value of a key: a string, or bytes of any kind. */
  datatype Value = Text(s: seq<byte>) | Binary(b: seq<byte>) {
    predicate Valid() {
      Text? ==> NulFree(s)
    }
  }

  const ESCAPE: byte := 64
  const PREFIX: seq<byte> := [64, 66, 65, 83, 69, 54, 52]

  /** What the storage gets to see. */
  function Stored(v: Value): Value {
    match v
    case Text(s) => if s != [] && s[0] == ESCAPE then Text([ESCAPE] + s) else v
    case Binary(b) => Text(PREFIX + Encode(b))
  }

  /** What comes back; bytes that the decoder does not write are arbitrary. */
  predicate Restores(v: Value, w: Value) {
    match v
    case Binary(_) => w == v
    case Text(s) =>
      if PREFIX <= s then
        if Decodable(s[|PREFIX|..]) then
          w.Binary? && |w.b| == DecodedLength(s[|PREFIX|..]) && Written(s[|PREFIX|..]) <= w.b
        else w == v
      else if [ESCAPE, ESCAPE] <= s then w == Text(s[1..])
      else w == v
  }

  /** Setting and getting restores every string, those that begin with the escape included, and every binary value. */
  lemma SetThenGet(v: Value, w: Value)
    requires Restores(Stored(v), w)
    ensures w == v
  {
    hide Encode, Written, DecodedLength, Decodable;
    match v
    case Text(s) =>
      if s != [] && s[0] == ESCAPE {
        var t := [ESCAPE] + s;
        assert t[1] == ESCAPE && t[1..] == s && t[..2] == [ESCAPE, ESCAPE];
        NotTagged(t);
      } else {
        NeitherTag(s);
      }
    case Binary(b) =>
      RoundTrip(b);
      var e := Encode(b);
      assert (PREFIX + e)[|PREFIX|..] == e;
  }

  lemma NotTagged(t: seq<byte>)
    requires |t| > 1 && t[1] == ESCAPE
    ensures !(PREFIX <= t)
  {
    assert PREFIX[1] != ESCAPE;
  }

  lemma NeitherTag(s: seq<byte>)
    requires s == [] || s[0] != ESCAPE
    ensures !(PREFIX <= s) && !([ESCAPE, ESCAPE] <= s)
  {
    assert PREFIX[0] == ESCAPE;
  }

  /** Different values are stored differently. */
  lemma StoredInjective(v: Value, w: Value)
    requires Stored(v) == Stored(w)
    ensures v == w
  {
    hide Encode;
    SomethingRestores(w);
    SetThenGet(v, w);
  }

  lemma SomethingRestores(w: Value)
    ensures Restores(Stored(w), w)
  {
    hide Encode, Written, DecodedLength, Decodable;
    match w
    case Text(s) =>
      if s != [] && s[0] == ESCAPE {
        var t := [ESCAPE] + s;
        assert t[1] == ESCAPE && t[1..] == s && t[..2] == [ESCAPE, ESCAPE];
        NotTagged(t);
      } else {
        NeitherTag(s);
      }
    case Binary(b) =>
      RoundTrip(b);
      assert (PREFIX + Encode(b))[|PREFIX|..] == Encode(b);
  }

  lemma {:induction false} EncodeNulFree(s: seq<byte>)
    ensures NulFree(Encode(s))
  {
    hide Sixes, Letter;
    if |s| >= 3 {
      EncodeNulFree(s[3..]);
      var x := Sixes(s[0], s[1], s[2]);
      LetterNotNul(x.0);
      LetterNotNul(x.1);
      LetterNotNul(x.2);
      LetterNotNul(x.3);
    } else if |s| > 0 {
      var x := Sixes(s[0], if |s| == 2 then s[1] else 0, 0);
      LetterNotNul(x.0);
      LetterNotNul(x.1);
      LetterNotNul(x.2);
    }
  }

  lemma LetterNotNul(i: nat)
    requires i < 64
    ensures Letter(i) != NUL
  {
  }

  /** The values of the keys of a keyset, in their order. The loop of elektraBase64Set. */
  method Set(values: array<Value>) returns (ret: int)
    requires forall i | 0 <= i < values.Length :: values[i].Valid()
    modifies values
    ensures ret == 1
    ensures forall i | 0 <= i < values.Length ::
      values[i].Text? && values[i].Valid() && values[i] == Stored(old(values[i]))
    ensures forall i | 0 <= i < values.Length && old(values[i]).Text? ::
      var s := old(values[i]).s;
      values[i] == Text(if s != [] && s[0] == 64 then [64] + s else s)
    ensures forall i | 0 <= i < values.Length && old(values[i]).Binary? ::
      values[i] == Text([64, 66, 65, 83, 69, 54, 52] + Encode(old(values[i]).b))
  {
    for i := 0 to values.Length
      invariant forall j | i <= j < values.Length :: values[j] == old(values[j])
      invariant forall j | 0 <= j < i :: values[j].Text? && values[j].Valid() && values[j] == Stored(old(values[j]))
    {
      var v := SetOne(values[i]);
      values[i] := v;
    }
    ret := 1;
  }

  method SetOne(v: Value) returns (w: Value)
    requires v.Valid()
    ensures w.Text? && w.Valid() && w == Stored(v)
  {
    hide Encode;
    w := v;
    if w.Text? {
      if |w.s| > 0 && w.s[0] == ESCAPE {
        w := Text([ESCAPE] + w.s);
      }
    }
    if w.Binary? {
      var input := new byte[|w.b|](i requires 0 <= i < |w.b| => w.b[i]);
      assert input[..] == w.b;
      var base64 := Base64Encode(input);
      EncodeNulFree(w.b);
      w := Text(PREFIX + base64[..base64.Length - 1]);
    }
  }

  /** The loop of elektraBase64Get. */
  method Get(values: array<Value>) returns (ret: int)
    modifies values
    ensures ret == 1 && forall i | 0 <= i < values.Length :: Restores(old(values[i]), values[i])
    ensures forall i | 0 <= i < values.Length && old(values[i]).Binary? :: values[i] == old(values[i])
    ensures forall i | 0 <= i < values.Length && old(values[i]).Text? ::
      var s := old(values[i]).s;
      if [64, 66, 65, 83, 69, 54, 52] <= s && Decodable(s[7..]) then
        values[i].Binary? && |values[i].b| == DecodedLength(s[7..]) && Written(s[7..]) <= values[i].b
      else values[i] == Text(if [64, 64] <= s then s[1..] else s)
  {
    hide Written, DecodedLength;
    for i := 0 to values.Length
      invariant forall j | i <= j < values.Length :: values[j] == old(values[j])
      invariant forall j | 0 <= j < i :: Restores(old(values[j]), values[j])
    {
      var v := GetOne(values[i]);
      values[i] := v;
    }
    forall i | 0 <= i < values.Length && old(values[i]).Text?
      ensures
        var s := old(values[i]).s;
        if [64, 66, 65, 83, 69, 54, 52] <= s && Decodable(s[7..]) then
          values[i].Binary? && |values[i].b| == DecodedLength(s[7..]) && Written(s[7..]) <= values[i].b
        else values[i] == Text(if [64, 64] <= s then s[1..] else s)
    {
      assert Restores(old(values[i]), values[i]);
      OneTag(old(values[i]).s);
    }
    ret := 1;
  }

  lemma OneTag(s: seq<byte>)
    ensures !(PREFIX <= s && [ESCAPE, ESCAPE] <= s)
  {
    assert PREFIX[1] != [ESCAPE, ESCAPE][1];
  }

  method GetOne(v: Value) returns (w: Value)
    ensures Restores(v, w)
  {
    hide Written, DecodedLength, Decodable;
    w := v;
    if v.Text? {
      if |v.s| >= |PREFIX| && v.s[..|PREFIX|] == PREFIX {
        var result, buffer, bufferLen := Base64Decode(v.s[|PREFIX|..]);
        if result == 1 {
          NothingToDecode();
          w := Binary(if buffer == null then [] else buffer[..bufferLen]);
        }
      } else if |v.s| >= 2 && v.s[..2] == [ESCAPE, ESCAPE] {
        w := Text(v.s[1..]);
      }
    }
  }

  lemma NothingToDecode()
    ensures Decodable([]) && Written([]) == [] && DecodedLength([]) == 0
  {
  }

  /** Over a whole keyset. */
  method StoreAndLoad(values: array<Value>)
    requires forall i | 0 <= i < values.Length :: values[i].Valid()
    modifies values
    ensures values[..] == old(values[..])
  {
    hide Stored, Restores;
    var _ := Set(values);
    ghost var stored := values[..];
    var _ := Get(values);
    forall i | 0 <= i < values.Length
      ensures values[i] == old(values[..])[i]
    {
      assert stored[i] == Stored(old(values[i]));
      SetThenGet(old(values[i]), values[i]);
    }
  }
}
