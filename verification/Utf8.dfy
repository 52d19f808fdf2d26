/**
 UTF-8 by its encoder: the bytes of a scalar value as section 3 of RFC 3629 lays
 them out, and the proof that the byte patterns of its section 4, by which a pack's
 text is recognised, admit what the encoder writes and nothing else.
 */
module Utf8 {
  import opened Bytes
  import opened LanguagePack

  /** A code point that is no surrogate. */
  type scalar = n: int | 0 <= n < 0xD800 || 0xE000 <= n < 0x11_0000

  /** A byte that carries six more bits. */
  function More(n: int): byte
    requires n >= 0
  {
    0x80 + n % 0x40
  }

  function ScalarBytes(n: scalar): (s: seq<byte>)
    ensures 1 <= |s| <= 4
  {
    if n < 0x80 then [n]
    else if n < 0x800 then [0xC0 + n / 0x40, More(n)]
    else if n < 0x1_0000 then [0xE0 + n / 0x1000, More(n / 0x40), More(n)]
    else [0xF0 + n / 0x4_0000, More(n / 0x1000), More(n / 0x40), More(n)]
  }

  function Encoded(scalars: seq<scalar>): seq<byte> {
    if scalars == [] then [] else ScalarBytes(scalars[0]) + Encoded(scalars[1..])
  }

  /** The bytes are the encoding of some scalar values. */
  ghost predicate IsText(s: seq<byte>) {
    exists scalars :: Encoded(scalars) == s
  }

  lemma ScalarIsRead(n: scalar, rest: seq<byte>)
    ensures ScalarLength(ScalarBytes(n) + rest) == |ScalarBytes(n)|
  {
    var s := ScalarBytes(n) + rest;
    assert forall i :: 0 <= i < |ScalarBytes(n)| ==> s[i] == ScalarBytes(n)[i];
  }

  lemma {:induction false} EncodedIsValid(scalars: seq<scalar>)
    ensures ValidUtf8(Encoded(scalars))
  {
    if scalars != [] {
      var front, rest := ScalarBytes(scalars[0]), Encoded(scalars[1..]);
      EncodedIsValid(scalars[1..]);
      ScalarIsRead(scalars[0], rest);
      assert (front + rest)[|front|..] == rest;
    }
  }

  /** Appending six bits and taking them off again. */
  lemma SixBits(high: nat, low: byte)
    requires Tail(low)
    ensures var n := high * 0x40 + (low as int - 0x80); n / 0x40 == high && More(n) == low
  {
  }

  lemma TwiceSixBits(n: nat)
    ensures n / 0x40 / 0x40 == n / 0x1000
  {
  }

  lemma ThriceSixBits(n: nat)
    ensures n / 0x40 / 0x40 / 0x40 == n / 0x4_0000
  {
  }

  /** The scalar value that the first bytes encode. */
  lemma ScalarOf(s: seq<byte>) returns (n: scalar)
    requires ScalarLength(s) > 0
    ensures ScalarLength(s) <= |s| && ScalarBytes(n) == s[..ScalarLength(s)]
  {
    var length := ScalarLength(s);
    if length == 1 {
      n := s[0];
    } else if length == 2 {
      n := TwoBytes(s[0], s[1]);
    } else if length == 3 {
      n := ThreeBytes(s[0], s[1], s[2]);
    } else {
      n := FourBytes(s[0], s[1], s[2], s[3]);
    }
  }

  lemma TwoBytes(a: byte, b: byte) returns (n: scalar)
    requires ScalarLength([a, b]) == 2
    ensures ScalarBytes(n) == [a, b]
  {
    SixBits(a as int - 0xC0, b);
    n := (a as int - 0xC0) * 0x40 + (b as int - 0x80);
  }

  lemma ThreeBytes(a: byte, b: byte, c: byte) returns (n: scalar)
    requires ScalarLength([a, b, c]) == 3
    ensures ScalarBytes(n) == [a, b, c]
  {
    var high := (a as int - 0xE0) * 0x40 + (b as int - 0x80);
    SixBits(a as int - 0xE0, b);
    SixBits(high, c);
    n := high * 0x40 + (c as int - 0x80);
    TwiceSixBits(n);
  }

  lemma FourBytes(a: byte, b: byte, c: byte, d: byte) returns (n: scalar)
    requires ScalarLength([a, b, c, d]) == 4
    ensures ScalarBytes(n) == [a, b, c, d]
  {
    var top := (a as int - 0xF0) * 0x40 + (b as int - 0x80);
    var high := top * 0x40 + (c as int - 0x80);
    SixBits(a as int - 0xF0, b);
    SixBits(top, c);
    SixBits(high, d);
    n := high * 0x40 + (d as int - 0x80);
    TwiceSixBits(n);
    ThriceSixBits(n);
  }

  lemma {:induction false} ScalarsOf(s: seq<byte>) returns (scalars: seq<scalar>)
    requires ValidUtf8(s)
    ensures Encoded(scalars) == s
    decreases |s|
  {
    if s == [] {
      scalars := [];
    } else {
      var n := ScalarOf(s);
      var rest := ScalarsOf(s[ScalarLength(s)..]);
      scalars := [n] + rest;
      assert scalars[1..] == rest;
    }
  }

  /** The byte patterns admit exactly the encodings of scalar values. */
  lemma TextIsEncoded(s: seq<byte>)
    ensures ValidUtf8(s) <==> IsText(s)
  {
    if ValidUtf8(s) {
      var scalars := ScalarsOf(s);
      assert Encoded(scalars) == s;
    }
    if IsText(s) {
      var scalars :| Encoded(scalars) == s;
      EncodedIsValid(scalars);
    }
  }
}
