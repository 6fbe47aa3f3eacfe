/// Well-formed UTF-8, the check `String::from_utf8` makes on the bytes of a
/// file before `read_to_string` hands them out as text. The byte patterns
/// are those of Table 3-7 of the Unicode Standard (section 3.9): shortest
/// forms only, no surrogates, nothing above U+10FFFF.
module Utf8 {
  import opened Bytes
  import opened Io

  /// A continuation byte `10xxxxxx`.
  predicate Cont(b: uint8) { 0x80 <= b <= 0xBF }

  /// The payload bits of a continuation byte.
  function Low(b: uint8): int { b - 0x80 }

  predicate IsScalar(n: int) { 0 <= n < 0xD800 || 0xE000 <= n < 0x11_0000 }

  /// The first character of `b` and the number of bytes it takes, or None
  /// when `b` does not start with a well-formed sequence.
  function DecodeFirst(b: seq<uint8>): (r: Option<(char, nat)>)
    requires |b| > 0
    ensures r.Some? ==> 1 <= r.value.1 <= |b| && r.value.1 <= 4
  {
    var b0 := b[0];
    if b0 < 0x80 then Some((b0 as char, 1))
    else if 0xC2 <= b0 <= 0xDF then
      if |b| >= 2 && Cont(b[1]) then
        Some((((b0 - 0xC0) * 0x40 + Low(b[1])) as char, 2))
      else None
    else if 0xE0 <= b0 <= 0xEF then
      var lo := if b0 == 0xE0 then 0xA0 else 0x80;
      var hi := if b0 == 0xED then 0x9F else 0xBF;
      if |b| >= 3 && lo <= b[1] <= hi && Cont(b[2]) then
        var n := (b0 - 0xE0) * 0x1000 + Low(b[1]) * 0x40 + Low(b[2]);
        assert IsScalar(n);
        Some((n as char, 3))
      else None
    else if 0xF0 <= b0 <= 0xF4 then
      var lo := if b0 == 0xF0 then 0x90 else 0x80;
      var hi := if b0 == 0xF4 then 0x8F else 0xBF;
      if |b| >= 4 && lo <= b[1] <= hi && Cont(b[2]) && Cont(b[3]) then
        var n := (b0 - 0xF0) * 0x4_0000 + Low(b[1]) * 0x1000 + Low(b[2]) * 0x40 + Low(b[3]);
        Some((n as char, 4))
      else None
    else None
  }

  /// The text `b` encodes, or None when `b` is not well-formed UTF-8.
  function Decode(b: seq<uint8>): Option<string>
    decreases |b|
  {
    if |b| == 0 then Some("")
    else match DecodeFirst(b)
      case None => None
      case Some((c, w)) =>
        match Decode(b[w..])
        case None => None
        case Some(s) => Some([c] + s)
  }

  /// The bytes of one character: one to four, by the size of its code point,
  /// six payload bits per continuation byte.
  function EncodeChar(c: char): (r: seq<uint8>)
    ensures 1 <= |r| <= 4
  {
    var n := c as int;
    if n < 0x80 then [n]
    else if n < 0x800 then [0xC0 + n / 0x40, 0x80 + n % 0x40]
    else if n < 0x1_0000 then [0xE0 + n / 0x40 / 0x40, 0x80 + n / 0x40 % 0x40, 0x80 + n % 0x40]
    else [0xF0 + n / 0x40 / 0x40 / 0x40, 0x80 + n / 0x40 / 0x40 % 0x40, 0x80 + n / 0x40 % 0x40, 0x80 + n % 0x40]
  }

  function Encode(s: string): seq<uint8>
  {
    if s == [] then [] else EncodeChar(s[0]) + Encode(s[1..])
  }

  /// The first character of an encoded character followed by anything is
  /// that character, and it takes exactly its encoding.
  lemma DecodeFirstOfEncoded(c: char, rest: seq<uint8>)
    ensures DecodeFirst(EncodeChar(c) + rest) == Some((c, |EncodeChar(c)|))
  {
    var n := c as int;
    if n < 0x80 {
    } else if n < 0x800 {
      DecodeTwo(c, rest);
    } else if n < 0x1_0000 {
      DecodeThree(c, rest);
    } else {
      DecodeFour(c, rest);
    }
  }

  lemma DecodeTwo(c: char, rest: seq<uint8>)
    requires 0x80 <= c as int < 0x800
    ensures DecodeFirst(EncodeChar(c) + rest) == Some((c, 2))
  {
    var n := c as int;
    var b := EncodeChar(c) + rest;
    assert b[0] == 0xC0 + n / 0x40 && b[1] == 0x80 + n % 0x40;
  }

  lemma DecodeThree(c: char, rest: seq<uint8>)
    requires 0x800 <= c as int < 0x1_0000
    ensures DecodeFirst(EncodeChar(c) + rest) == Some((c, 3))
  {
    var n := c as int;
    var n1 := n / 0x40;
    var d2 := n % 0x40;
    var d0 := n1 / 0x40;
    var d1 := n1 % 0x40;
    assert n == 0x40 * n1 + d2 && n1 == 0x40 * d0 + d1;
    var b := EncodeChar(c) + rest;
    assert b[0] == 0xE0 + d0 && b[1] == 0x80 + d1 && b[2] == 0x80 + d2;
  }

  lemma DecodeFour(c: char, rest: seq<uint8>)
    requires 0x1_0000 <= c as int
    ensures DecodeFirst(EncodeChar(c) + rest) == Some((c, 4))
  {
    var n := c as int;
    var n2 := n / 0x40;
    var d3 := n % 0x40;
    var n1 := n2 / 0x40;
    var d2 := n2 % 0x40;
    var d0 := n1 / 0x40;
    var d1 := n1 % 0x40;
    assert n == 0x40 * n2 + d3 && n2 == 0x40 * n1 + d2 && n1 == 0x40 * d0 + d1;
    var b := EncodeChar(c) + rest;
    assert b[0] == 0xF0 + d0 && b[1] == 0x80 + d1 && b[2] == 0x80 + d2 && b[3] == 0x80 + d3;
  }

  /// A well-formed first sequence is the encoding of the character it
  /// decodes to.
  lemma EncodedFirst(b: seq<uint8>)
    requires |b| > 0 && DecodeFirst(b).Some?
    ensures var (c, w) := DecodeFirst(b).value; EncodeChar(c) == b[..w]
  {
    var w := DecodeFirst(b).value.1;
    if w == 2 {
      EncodedTwo(b);
    } else if w == 3 {
      EncodedThree(b);
    } else if w == 4 {
      EncodedFour(b);
    }
  }

  lemma EncodedTwo(b: seq<uint8>)
    requires |b| > 0 && DecodeFirst(b).Some? && DecodeFirst(b).value.1 == 2
    ensures EncodeChar(DecodeFirst(b).value.0) == b[..2]
  {
    var n := DecodeFirst(b).value.0 as int;
    assert n == (b[0] - 0xC0) * 0x40 + Low(b[1]);
  }

  lemma EncodedThree(b: seq<uint8>)
    requires |b| > 0 && DecodeFirst(b).Some? && DecodeFirst(b).value.1 == 3
    ensures EncodeChar(DecodeFirst(b).value.0) == b[..3]
  {
    var n := DecodeFirst(b).value.0 as int;
    var n1 := (b[0] - 0xE0) * 0x40 + Low(b[1]);
    assert n == n1 * 0x40 + Low(b[2]);
    assert n / 0x40 == n1 && n % 0x40 == Low(b[2]);
  }

  lemma EncodedFour(b: seq<uint8>)
    requires |b| > 0 && DecodeFirst(b).Some? && DecodeFirst(b).value.1 == 4
    ensures EncodeChar(DecodeFirst(b).value.0) == b[..4]
  {
    var n := DecodeFirst(b).value.0 as int;
    var n1 := (b[0] - 0xF0) * 0x40 + Low(b[1]);
    var n2 := n1 * 0x40 + Low(b[2]);
    assert n == n2 * 0x40 + Low(b[3]);
    assert n / 0x40 == n2 && n % 0x40 == Low(b[3]);
    assert n2 / 0x40 == n1 && n2 % 0x40 == Low(b[2]);
  }

  /// Decoding peels off the first character and decodes the rest.
  lemma DecodeStep(b: seq<uint8>)
    requires |b| > 0 && Decode(b).Some?
    ensures DecodeFirst(b).Some?
    ensures var w := DecodeFirst(b).value.1;
      Decode(b[w..]).Some? && Decode(b).value == [DecodeFirst(b).value.0] + Decode(b[w..]).value
  {
  }

  /// Decoding an encoded text gives the text back.
  lemma {:induction false} DecodeEncode(s: string)
    ensures Decode(Encode(s)) == Some(s)
  {
    if s != [] {
      var e := EncodeChar(s[0]);
      DecodeFirstOfEncoded(s[0], Encode(s[1..]));
      assert Encode(s)[|e|..] == Encode(s[1..]);
      DecodeEncode(s[1..]);
      assert [s[0]] + s[1..] == s;
    }
  }

  /// The bytes a text was decoded from are its encoding: no two byte
  /// sequences decode to the same text.
  lemma {:induction false} EncodeDecode(b: seq<uint8>)
    requires Decode(b).Some?
    ensures Encode(Decode(b).value) == b
    decreases |b|
  {
    if |b| > 0 {
      var c, w := Peel(b);
      EncodeDecode(b[w..]);
      EncodeCons(c, Decode(b[w..]).value);
      assert b == b[..w] + b[w..];
    }
  }

  /// A well-formed non-empty `b` starts with the `w` bytes encoding `c`,
  /// and decodes to `c` followed by what the rest decodes to.
  lemma Peel(b: seq<uint8>) returns (c: char, w: nat)
    requires |b| > 0 && Decode(b).Some?
    ensures 1 <= w <= |b| && EncodeChar(c) == b[..w]
    ensures Decode(b[w..]).Some? && Decode(b).value == [c] + Decode(b[w..]).value
  {
    DecodeStep(b);
    c, w := DecodeFirst(b).value.0, DecodeFirst(b).value.1;
    EncodedFirst(b);
  }

  /// Encoding a text encodes its first character, then the rest.
  lemma EncodeCons(c: char, t: string)
    ensures Encode([c] + t) == EncodeChar(c) + Encode(t)
  {
    assert ([c] + t)[1..] == t;
  }

  /// Bytes are accepted as text exactly when they are the encoding of some
  /// text.
  lemma WellFormedIsEncoded(b: seq<uint8>)
    ensures Decode(b).Some? <==> exists s: string :: Encode(s) == b
  {
    if Decode(b).Some? {
      EncodeDecode(b);
    }
    forall s: string | Encode(s) == b
      ensures Decode(b).Some?
    {
      DecodeEncode(s);
    }
  }
}
