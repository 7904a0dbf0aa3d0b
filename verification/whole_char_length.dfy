/** `wholeCharLength(str, i)`: how many UTF-16 code units the character
    starting at index `i` occupies, following section 2.2 of RFC 2781
    ("Decoding UTF-16"). */
module WholeChars {
  import opened Wrappers
  import opened Strings

  /** W1 of section 2.2 of RFC 2781: the first unit of a surrogate pair. */
  predicate IsHighSurrogate(u: Unit) {
    0xD800 <= u <= 0xDBFF
  }

  /** W2 of section 2.2 of RFC 2781: the second unit of a surrogate pair. */
  predicate IsLowSurrogate(u: Unit) {
    0xDC00 <= u <= 0xDFFF
  }

  /** `str.charCodeAt(i)`: the code unit at `i`, or `None` for the `NaN` an
      index outside the string gives (every comparison with `NaN` is false). */
  function CharCodeAt(str: Text, i: int): (c: Option<Unit>)
    ensures c.Some? <==> 0 <= i < |str|
    ensures c.Some? ==> c.value == str[i]
  {
    if 0 <= i < |str| then Some(str[i]) else None
  }

  /** The width, 1 or 2, of the character at `i`. A high surrogate counts 2
      only when a low surrogate follows it; a lone surrogate of either kind, a
      high surrogate in the last position, any other unit and an index outside
      the string all count 1. */
  function WholeCharLength(str: Text, i: int): (r: nat)
    ensures r == 1 || r == 2
    ensures r == 2 <==> 0 <= i && i + 1 < |str| && IsHighSurrogate(str[i]) && IsLowSurrogate(str[i + 1])
    ensures 0 <= i < |str| && IsHighSurrogate(str[i]) && i + 1 == |str| ==> r == 1
    ensures 0 <= i < |str| && !IsHighSurrogate(str[i]) ==> r == 1
    ensures 0 <= i < |str| ==> i + r <= |str|
  {
    var code := CharCodeAt(str, i);
    if code.Some? && 0xD800 <= code.value <= 0xDBFF then
      if |str| <= i + 1 then 1
      else
        var next := CharCodeAt(str, i + 1);
        if next.Some? && (0xDC00 > next.value || next.value > 0xDFFF) then 1
        else 2
    else 1
  }

  /** A Unicode scalar value: a code point that is not a surrogate. */
  predicate IsScalar(c: int) {
    0 <= c <= 0x10_FFFF && !(0xD800 <= c <= 0xDFFF)
  }

  /** Section 2.1 of RFC 2781 ("Encoding UTF-16"): one unit below U+10000,
      otherwise a high surrogate carrying the upper ten bits of `c - 0x10000`
      and a low surrogate carrying the lower ten. */
  function Encode(c: int): (s: Text)
    requires IsScalar(c)
    ensures |s| == 1 <==> c < 0x1_0000
    ensures |s| == 1 || |s| == 2
  {
    if c < 0x1_0000 then [c as Unit]
    else
      var u := c - 0x1_0000;
      [(0xD800 + u / 0x400) as Unit, (0xDC00 + u % 0x400) as Unit]
  }

  /** Section 2.2 of RFC 2781: the code point of the character at `i`, taking
      the width `WholeCharLength` reports (a lone surrogate stands for itself). */
  function DecodeAt(str: Text, i: nat): int
    requires i < |str|
  {
    if WholeCharLength(str, i) == 2 then
      0x1_0000 + (str[i] as int - 0xD800) * 0x400 + (str[i + 1] as int - 0xDC00)
    else str[i] as int
  }

  /** Whatever follows an encoded scalar value, the width measured at its
      first unit is exactly its encoded length, and decoding gives it back. */
  lemma EncodedWidth(c: int, rest: Text)
    requires IsScalar(c)
    ensures WholeCharLength(Encode(c) + rest, 0) == |Encode(c)|
    ensures DecodeAt(Encode(c) + rest, 0) == c
  {
    var s := Encode(c) + rest;
    if c >= 0x1_0000 {
      var u := c - 0x1_0000;
      assert s[0] as int == 0xD800 + u / 0x400 && s[1] as int == 0xDC00 + u % 0x400;
    }
  }

  /** The text cut into whole characters by stepping `WholeCharLength` from
      the front, as a caller walking a string character by character does. */
  function Characters(str: Text): (cs: seq<Text>)
    ensures forall k :: 0 <= k < |cs| ==> 1 <= |cs[k]| <= 2
    decreases |str|
  {
    if |str| == 0 then []
    else
      var w := WholeCharLength(str, 0);
      [str[..w]] + Characters(str[w..])
  }

  function Flatten(cs: seq<Text>): Text
  {
    if |cs| == 0 then [] else cs[0] + Flatten(cs[1..])
  }

  /** The characters put back together give the string: stepping by
      `WholeCharLength` never skips or repeats a unit. */
  lemma {:induction false} CharactersFlatten(str: Text)
    ensures Flatten(Characters(str)) == str
    decreases |str|
  {
    if |str| > 0 {
      var w := WholeCharLength(str, 0);
      var cs := Characters(str);
      assert cs[1..] == Characters(str[w..]);
      CharactersFlatten(str[w..]);
      assert str == str[..w] + str[w..];
    }
  }

  /** The UTF-16 encoding of a sequence of scalar values. */
  function EncodeAll(cs: seq<int>): Text
    requires forall k :: 0 <= k < |cs| ==> IsScalar(cs[k])
  {
    if |cs| == 0 then [] else Encode(cs[0]) + EncodeAll(cs[1..])
  }

  /** Walking an encoded text by `WholeCharLength` recovers exactly the
      encoding of each scalar value, in order. */
  lemma {:induction false} CharactersOfEncoding(cs: seq<int>)
    requires forall k :: 0 <= k < |cs| ==> IsScalar(cs[k])
    ensures |Characters(EncodeAll(cs))| == |cs|
    ensures forall k :: 0 <= k < |cs| ==> Characters(EncodeAll(cs))[k] == Encode(cs[k])
    decreases |cs|
  {
    if |cs| > 0 {
      var s := EncodeAll(cs);
      var e := Encode(cs[0]);
      EncodedWidth(cs[0], EncodeAll(cs[1..]));
      assert s[..|e|] == e && s[|e|..] == EncodeAll(cs[1..]);
      CharactersOfEncoding(cs[1..]);
    }
  }
}
