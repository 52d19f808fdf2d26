/**
 The pairing token: 32 random bytes as unpadded base64url (sections 3.2 and 5
 of RFC 4648), and the comparison that reads every byte of both sides.
 */
module PairingToken {
  import opened Bytes
  import opened Wrappers

  type sextet = x: int | 0 <= x < 64

  /** The UTF-8 bytes of a JavaScript string. No engine holds a string of four gigabytes. */
  type Utf8 = s: seq<byte> | |s| < 0x1_0000_0000

  // ------------------------------------------------------------ alphabets

  function Letter(x: sextet, plus: char, slash: char): char {
    if x < 26 then ('A' as int + x) as char
    else if x < 52 then ('a' as int + x - 26) as char
    else if x < 62 then ('0' as int + x - 52) as char
    else if x == 62 then plus
    else slash
  }

  /** The base64url value of a character. */
  function Value(c: char): Option<sextet> {
    if 'A' <= c <= 'Z' then Some(c as int - 'A' as int)
    else if 'a' <= c <= 'z' then Some(c as int - 'a' as int + 26)
    else if '0' <= c <= '9' then Some(c as int - '0' as int + 52)
    else if c == '-' then Some(62)
    else if c == '_' then Some(63)
    else None
  }

  lemma ValueUndoesLetter(x: sextet, c: char)
    ensures Value(c) == Some(x) <==> c == Letter(x, '-', '_')
  {
  }

  // ------------------------------------------------------------- encoding

  /** Three bytes as four sextets. */
  function Four(a: byte, b: byte, c: byte): (x: seq<sextet>)
    ensures |x| == 4
  {
    [a / 4, a % 4 * 16 + b / 16, b % 16 * 4 + c / 64, c % 64]
  }

  /** Four sextets as three bytes. */
  function Three(w: int, x: int, y: int, z: int): (b: seq<byte>)
    requires 0 <= w < 64 && 0 <= x < 64 && 0 <= y < 64 && 0 <= z < 64
    ensures |b| == 3
  {
    [w * 4 + x / 16, x % 16 * 16 + y / 4, y % 4 * 64 + z]
  }

  lemma ThreeUndoesFour(a: byte, b: byte, c: byte)
    ensures var x := Four(a, b, c); Three(x[0], x[1], x[2], x[3]) == [a, b, c]
  {
  }

  lemma FourUndoesThree(w: sextet, x: sextet, y: sextet, z: sextet)
    ensures var b := Three(w, x, y, z); Four(b[0], b[1], b[2]) == [w, x, y, z]
  {
    var a, b, c := w * 4 + x / 16, x % 16 * 16 + y / 4, y % 4 * 64 + z;
    assert a / 4 == w && a % 4 == x / 16;
    assert b / 16 == x % 16 && b % 16 == y / 4;
    assert c / 64 == y % 4 && c % 64 == z;
  }

  /** The bits of the bytes six at a time, a short last group filled up with zero bits. */
  function Sextets(bytes: seq<byte>): seq<sextet> {
    if |bytes| == 0 then []
    else if |bytes| == 1 then Four(bytes[0], 0, 0)[..2]
    else if |bytes| == 2 then Four(bytes[0], bytes[1], 0)[..3]
    else Four(bytes[0], bytes[1], bytes[2]) + Sextets(bytes[3..])
  }

  function Letters(sextets: seq<sextet>, plus: char, slash: char): (s: string)
    ensures |s| == |sextets|
  {
    seq(|sextets|, i requires 0 <= i < |sextets| => Letter(sextets[i], plus, slash))
  }

  /** What `encodeToken` answers: the base64url letters of the bytes, with no padding. */
  function Encoded(bytes: seq<byte>): string {
    Letters(Sextets(bytes), '-', '_')
  }

  /** A string of characters below 256, as the platform's `btoa` takes it. */
  type Binary = s: string | forall c <- s :: c as int < 256

  function CharCodes(binary: Binary): seq<byte> {
    seq(|binary|, i requires 0 <= i < |binary| => assert binary[i] in binary; var code: byte := binary[i] as int; code)
  }

  /** The platform's base64 with padding (section 4 of RFC 4648). */
  function Btoa(binary: Binary): string {
    Letters(Sextets(CharCodes(binary)), '+', '/') + seq((3 - |binary| % 3) % 3, _ => '=')
  }

  function ReplaceAll(s: string, from: char, to: char): (r: string)
    ensures |r| == |s|
  {
    seq(|s|, i requires 0 <= i < |s| => if s[i] == from then to else s[i])
  }

  /** Drops the run of `=` that ends the string. */
  function StripPadding(s: string): string {
    if s != "" && s[|s| - 1] == '=' then StripPadding(s[..|s| - 1]) else s
  }

  lemma {:induction false} StripsExactly(s: string, n: nat)
    requires s != "" ==> s[|s| - 1] != '='
    ensures StripPadding(s + seq(n, _ => '=')) == s
  {
    var padded := s + seq(n, _ => '=');
    if n == 0 {
      assert padded == s;
    } else {
      assert padded[..|padded| - 1] == s + seq(n - 1, _ => '=');
      StripsExactly(s, n - 1);
    }
  }

  lemma ReplacedLetters(sextets: seq<sextet>, n: nat)
    ensures var s := Letters(sextets, '+', '/') + seq(n, _ => '=');
            ReplaceAll(ReplaceAll(s, '+', '-'), '/', '_') == Letters(sextets, '-', '_') + seq(n, _ => '=')
  {
  }

  method EncodeToken(bytes: seq<byte>) returns (token: string)
    ensures token == Encoded(bytes)
  {
    var binary: Binary := "";
    for i := 0 to |bytes|
      invariant |binary| == i && forall k :: 0 <= k < i ==> binary[k] as int == bytes[k]
    {
      binary := binary + [bytes[i] as char];
    }
    assert CharCodes(binary) == bytes;
    var sextets := Sextets(bytes);
    ReplacedLetters(sextets, (3 - |binary| % 3) % 3);
    StripsExactly(Letters(sextets, '-', '_'), (3 - |binary| % 3) % 3);
    token := StripPadding(ReplaceAll(ReplaceAll(Btoa(binary), '+', '-'), '/', '_'));
  }

  // ------------------------------------------------------------- decoding

  /** The bytes of a string of sextets, or None when it has a lone last one or fills up with bits other than zero. */
  function Unpacked(x: seq<sextet>): Option<seq<byte>> {
    if |x| == 0 then Some([])
    else if |x| == 1 then None
    else if |x| == 2 then
      var b := Three(x[0], x[1], 0, 0);
      if b[1] == 0 then Some(b[..1]) else None
    else if |x| == 3 then
      var b := Three(x[0], x[1], x[2], 0);
      if b[2] == 0 then Some(b[..2]) else None
    else
      match Unpacked(x[4..])
      case Some(rest) => Some(Three(x[0], x[1], x[2], x[3]) + rest)
      case None => None
  }

  function Values(s: string): Option<seq<sextet>> {
    if s == "" then Some([])
    else
      match (Value(s[0]), Values(s[1..]))
      case (Some(x), Some(rest)) => Some([x] + rest)
      case _ => None
  }

  function Decoded(s: string): Option<seq<byte>> {
    match Values(s)
    case Some(sextets) => Unpacked(sextets)
    case None => None
  }

  lemma {:induction false} ValuesUndoLetters(s: string, sextets: seq<sextet>)
    ensures Values(s) == Some(sextets) <==> s == Letters(sextets, '-', '_')
  {
    if s != "" && sextets != [] {
      ValuesUndoLetters(s[1..], sextets[1..]);
      ValueUndoesLetter(sextets[0], s[0]);
      assert Letters(sextets, '-', '_') == [Letter(sextets[0], '-', '_')] + Letters(sextets[1..], '-', '_');
      assert s == [s[0]] + s[1..] && sextets == [sextets[0]] + sextets[1..];
    }
  }

  lemma {:induction false} UnpackedUndoesSextets(bytes: seq<byte>)
    ensures Unpacked(Sextets(bytes)) == Some(bytes)
  {
    if |bytes| == 1 {
      ThreeUndoesFour(bytes[0], 0, 0);
      assert Four(bytes[0], 0, 0)[2] == 0 && Four(bytes[0], 0, 0)[3] == 0;
      assert [bytes[0], 0, 0][..1] == bytes;
    } else if |bytes| == 2 {
      ThreeUndoesFour(bytes[0], bytes[1], 0);
      assert Four(bytes[0], bytes[1], 0)[3] == 0;
      assert [bytes[0], bytes[1], 0][..2] == bytes;
    } else if |bytes| >= 3 {
      ThreeUndoesFour(bytes[0], bytes[1], bytes[2]);
      UnpackedUndoesSextets(bytes[3..]);
      assert Sextets(bytes)[4..] == Sextets(bytes[3..]);
      assert bytes == [bytes[0], bytes[1], bytes[2]] + bytes[3..];
    }
  }

  lemma {:induction false} SextetsUndoUnpacked(x: seq<sextet>)
    requires Unpacked(x).Some?
    ensures Sextets(Unpacked(x).value) == x
  {
    if |x| == 2 {
      FourUndoesThree(x[0], x[1], 0, 0);
      assert x == [x[0], x[1]];
    } else if |x| == 3 {
      FourUndoesThree(x[0], x[1], x[2], 0);
      assert x == [x[0], x[1], x[2]];
    } else if |x| >= 4 {
      FourUndoesThree(x[0], x[1], x[2], x[3]);
      SextetsUndoUnpacked(x[4..]);
      assert Unpacked(x).value[3..] == Unpacked(x[4..]).value;
      assert x == [x[0], x[1], x[2], x[3]] + x[4..];
    }
  }

  /** Decoding and encoding undo each other: one token string for each byte string, and no other string decodes. */
  lemma DecodingInvertsEncoding(s: string, bytes: seq<byte>)
    ensures Decoded(s) == Some(bytes) <==> s == Encoded(bytes)
  {
    ValuesUndoLetters(s, Sextets(bytes));
    UnpackedUndoesSextets(bytes);
    if Values(s).Some? {
      ValuesUndoLetters(s, Values(s).value);
      if Unpacked(Values(s).value).Some? {
        SextetsUndoUnpacked(Values(s).value);
      }
    }
  }

  lemma EncodingIsInjective(a: seq<byte>, b: seq<byte>)
    requires Encoded(a) == Encoded(b)
    ensures a == b
  {
    DecodingInvertsEncoding(Encoded(a), a);
    DecodingInvertsEncoding(Encoded(a), b);
  }

  // ----------------------------------------------------------- comparison

  /** Exclusive or and inclusive or, bit by bit. */
  function Xor(a: nat, b: nat): nat {
    if a == 0 && b == 0 then 0 else (a % 2 + b % 2) % 2 + 2 * Xor(a / 2, b / 2)
  }

  function Or(a: nat, b: nat): nat {
    if a == 0 && b == 0 then 0 else (if a % 2 + b % 2 > 0 then 1 else 0) + 2 * Or(a / 2, b / 2)
  }

  lemma {:induction false} XorIsZero(a: nat, b: nat)
    ensures Xor(a, b) == 0 <==> a == b
  {
    if a != 0 || b != 0 {
      XorIsZero(a / 2, b / 2);
    }
  }

  lemma {:induction false} OrIsZero(a: nat, b: nat)
    ensures Or(a, b) == 0 <==> a == 0 && b == 0
  {
    if a != 0 || b != 0 {
      OrIsZero(a / 2, b / 2);
    }
  }

  lemma EncodedIsAscii(bytes: seq<byte>)
    ensures forall c <- Encoded(bytes) :: c as int < 128
  {
  }

  /** The UTF-8 bytes of the token the bytes encode to: its characters are all ASCII. */
  function TokenBytes(bytes: seq<byte>): seq<byte> {
    EncodedIsAscii(bytes);
    CharCodes(Encoded(bytes))
  }

  function ByteOr0(s: seq<byte>, i: nat): byte {
    if i < |s| then s[i] else 0
  }

  /** Bitwise operators read a number's low 32 bits. */
  function Low32(n: nat): nat {
    n % 0x1_0000_0000
  }

  method TokenMatches(token: Utf8, expected: seq<byte>) returns (matches: bool)
    requires |TokenBytes(expected)| < 0x1_0000_0000
    ensures matches <==> token == TokenBytes(expected)
  {
    var text := EncodeToken(expected);
    EncodedIsAscii(expected);
    var encoded := CharCodes(text);
    var difference := LengthDifference(|token|, |encoded|);
    var longer := if |token| > |encoded| then |token| else |encoded|;
    for i := 0 to longer
      invariant difference == 0 <==> |token| == |encoded| && SameBytes(token, encoded, i)
    {
      difference := Difference(difference, ByteOr0(token, i), ByteOr0(encoded, i));
    }
    if |token| == |encoded| && SameBytes(token, encoded, longer) {
      SameBytesAreEqual(token, encoded);
    }
    matches := difference == 0;
  }

  function LengthDifference(m: nat, n: nat): (difference: nat)
    requires m < 0x1_0000_0000 && n < 0x1_0000_0000
    ensures difference == 0 <==> m == n
  {
    XorIsZero(Low32(m), Low32(n));
    Xor(Low32(m), Low32(n))
  }

  predicate SameBytes(a: seq<byte>, b: seq<byte>, n: nat) {
    forall k :: 0 <= k < n ==> ByteOr0(a, k) == ByteOr0(b, k)
  }

  lemma SameBytesAreEqual(a: seq<byte>, b: seq<byte>)
    requires |a| == |b| && SameBytes(a, b, |a|)
    ensures a == b
  {
    assert forall k :: 0 <= k < |a| ==> a[k] == ByteOr0(a, k) && b[k] == ByteOr0(b, k);
  }

  function Difference(before: nat, a: byte, b: byte): (after: nat)
    ensures after == 0 <==> before == 0 && a == b
  {
    XorIsZero(a, b);
    OrIsZero(before, Xor(a, b));
    Or(before, Xor(a, b))
  }

  /** A token matches one byte string at most. */
  lemma OneByteStringPerToken(token: seq<byte>, a: seq<byte>, b: seq<byte>)
    requires token == TokenBytes(a) == TokenBytes(b)
    ensures a == b
  {
    EncodedIsAscii(a);
    EncodedIsAscii(b);
    forall i | 0 <= i < |Encoded(a)| ensures Encoded(a)[i] == Encoded(b)[i] {
      assert token[i] == Encoded(a)[i] as int == Encoded(b)[i] as int;
    }
    EncodingIsInjective(a, b);
  }

  // ------------------------------------------------------- the RFC's examples

  /** The alphabet of section 5 of RFC 4648: capitals, small letters, digits, `-` and `_`, each run in order. */
  lemma AlphabetIsBase64Url(x: sextet)
    ensures Letter(0, '-', '_') == 'A' && Letter(25, '-', '_') == 'Z'
    ensures Letter(26, '-', '_') == 'a' && Letter(51, '-', '_') == 'z'
    ensures Letter(52, '-', '_') == '0' && Letter(61, '-', '_') == '9'
    ensures Letter(62, '-', '_') == '-' && Letter(63, '-', '_') == '_'
    ensures x !in {25, 51, 61, 62, 63} ==> Letter(x + 1, '-', '_') as int == Letter(x, '-', '_') as int + 1
  {
  }

  lemma SextetsGoOn(bytes: seq<byte>)
    requires |bytes| >= 3
    ensures Sextets(bytes) == Four(bytes[0], bytes[1], bytes[2]) + Sextets(bytes[3..])
  {
  }

  /** The test vectors of section 10 of RFC 4648, without their padding: "", "f", "fo", "foo" and "foobar". */
  lemma EncodesTheTestVectors()
    ensures Encoded([]) == ""
    ensures Encoded([102]) == "Zg"
    ensures Encoded([102, 111]) == "Zm8"
    ensures Encoded([102, 111, 111]) == "Zm9v"
    ensures Encoded([102, 111, 111, 98, 97, 114]) == "Zm9vYmFy"
  {
    ThreeBytesEncode();
    SixBytesEncode();
    assert Sextets([102, 111]) == [25, 38, 60];
    assert Sextets([102]) == [25, 32];
  }

  lemma ThreeBytesEncode()
    ensures Sextets([102, 111, 111]) == [25, 38, 61, 47] && Sextets([98, 97, 114]) == [24, 38, 5, 50]
  {
    SextetsGoOn([102, 111, 111]);
    SextetsGoOn([98, 97, 114]);
  }

  lemma SixBytesEncode()
    ensures Sextets([102, 111, 111, 98, 97, 114]) == [25, 38, 61, 47, 24, 38, 5, 50]
  {
    var foobar: seq<byte> := [102, 111, 111, 98, 97, 114];
    SextetsGoOn(foobar);
    assert foobar[3..] == [98, 97, 114];
    ThreeBytesEncode();
  }
}
