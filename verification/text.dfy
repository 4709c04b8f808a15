/**
 * Byte and text handling used when reading an editor's version output:
 * UTF-8 decoding as Rust's `str::from_utf8` does it (only well-formed
 * sequences, per the Unicode Standard's table of well-formed byte
 * sequences), and `str::trim` with Rust's `char::is_whitespace`.
 */
module Text {
  import opened Wrappers
  import opened Words

  // ---------------------------------------------------------------------------
  // UTF-8

  predicate Continuation(b: byte) {
    0x80 <= b <= 0xBF
  }

  /** The bounds the second byte of a three-byte sequence must lie in, by its first byte. */
  predicate SecondOfThree(b0: byte, b1: byte) {
    if b0 == 0xE0 then 0xA0 <= b1 <= 0xBF
    else if b0 == 0xED then 0x80 <= b1 <= 0x9F
    else Continuation(b1)
  }

  /** The bounds the second byte of a four-byte sequence must lie in, by its first byte. */
  predicate SecondOfFour(b0: byte, b1: byte) {
    if b0 == 0xF0 then 0x90 <= b1 <= 0xBF
    else if b0 == 0xF4 then 0x80 <= b1 <= 0x8F
    else Continuation(b1)
  }

  /**
   * The first character of a byte string and how many bytes encode it, or
   * None when the string does not start with a well-formed UTF-8 sequence.
   */
  function DecodeFirst(bs: seq<byte>): (r: Option<(char, nat)>)
    requires bs != []
    ensures r.Some? ==> 1 <= r.value.1 <= 4 && r.value.1 <= |bs|
  {
    var b0 := bs[0];
    if b0 < 0x80 then Some((b0 as int as char, 1))
    else if 0xC2 <= b0 <= 0xDF then
      if 2 <= |bs| && Continuation(bs[1]) then
        Some((((b0 as int - 0xC0) * 0x40 + (bs[1] as int - 0x80)) as char, 2))
      else None
    else if 0xE0 <= b0 <= 0xEF then
      if 3 <= |bs| && SecondOfThree(b0, bs[1]) && Continuation(bs[2]) then
        Some((((b0 as int - 0xE0) * 0x1000 + (bs[1] as int - 0x80) * 0x40 + (bs[2] as int - 0x80)) as char, 3))
      else None
    else if 0xF0 <= b0 <= 0xF4 then
      if 4 <= |bs| && SecondOfFour(b0, bs[1]) && Continuation(bs[2]) && Continuation(bs[3]) then
        Some((((b0 as int - 0xF0) * 0x40000 + (bs[1] as int - 0x80) * 0x1000
          + (bs[2] as int - 0x80) * 0x40 + (bs[3] as int - 0x80)) as char, 4))
      else None
    else None
  }

  /** The text a byte string encodes in UTF-8, or None when it is not well-formed UTF-8. */
  function Decode(bs: seq<byte>): Option<string>
    decreases |bs|
  {
    if bs == [] then Some([])
    else match DecodeFirst(bs)
      case None => None
      case Some((c, n)) =>
        match Decode(bs[n..])
        case None => None
        case Some(s) => Some([c] + s)
  }

  /** The UTF-8 encoding of one character. */
  function EncodeChar(c: char): (r: seq<byte>)
    ensures 1 <= |r| <= 4
  {
    var n := c as int;
    if n < 0x80 then [n as byte]
    else if n < 0x800 then [(0xC0 + n / 0x40) as byte, (0x80 + n % 0x40) as byte]
    else if n < 0x10000 then
      [(0xE0 + n / 0x1000) as byte, (0x80 + n / 0x40 % 0x40) as byte, (0x80 + n % 0x40) as byte]
    else
      [(0xF0 + n / 0x40000) as byte, (0x80 + n / 0x1000 % 0x40) as byte,
       (0x80 + n / 0x40 % 0x40) as byte, (0x80 + n % 0x40) as byte]
  }

  /** The UTF-8 encoding of a text. */
  function Encode(s: string): seq<byte>
    decreases |s|
  {
    if s == [] then [] else EncodeChar(s[0]) + Encode(s[1..])
  }

  /** Splitting a number into six-bit digits and putting them back together. */
  lemma Digits(n: int)
    requires 0 <= n
    ensures n == n / 0x40 * 0x40 + n % 0x40
    ensures n / 0x40 == n / 0x1000 * 0x40 + n / 0x40 % 0x40
    ensures n / 0x1000 == n / 0x40000 * 0x40 + n / 0x1000 % 0x40
  {
  }

  lemma DecodeFirstTwo(c: char, rest: seq<byte>)
    requires 0x80 <= c as int < 0x800
    ensures DecodeFirst(EncodeChar(c) + rest) == Some((c, 2))
  {
    var n := c as int;
    Digits(n);
    var bs := EncodeChar(c) + rest;
    assert bs[0] as int == 0xC0 + n / 0x40 && bs[1] as int == 0x80 + n % 0x40;
  }

  lemma DecodeFirstThree(c: char, rest: seq<byte>)
    requires 0x800 <= c as int < 0x10000
    ensures DecodeFirst(EncodeChar(c) + rest) == Some((c, 3))
  {
    var n := c as int;
    Digits(n);
    var bs := EncodeChar(c) + rest;
    assert bs[0] as int == 0xE0 + n / 0x1000 && bs[1] as int == 0x80 + n / 0x40 % 0x40 && bs[2] as int == 0x80 + n % 0x40;
  }

  lemma DecodeFirstFour(c: char, rest: seq<byte>)
    requires 0x10000 <= c as int
    ensures DecodeFirst(EncodeChar(c) + rest) == Some((c, 4))
  {
    var n := c as int;
    Digits(n);
    var bs := EncodeChar(c) + rest;
    assert bs[0] as int == 0xF0 + n / 0x40000 && bs[1] as int == 0x80 + n / 0x1000 % 0x40;
    assert bs[2] as int == 0x80 + n / 0x40 % 0x40 && bs[3] as int == 0x80 + n % 0x40;
  }

  /** A character's encoding decodes back to that character, whatever follows it. */
  lemma DecodeFirstEncodeChar(c: char, rest: seq<byte>)
    ensures DecodeFirst(EncodeChar(c) + rest) == Some((c, |EncodeChar(c)|))
  {
    var n := c as int;
    if n < 0x80 {
    } else if n < 0x800 {
      DecodeFirstTwo(c, rest);
    } else if n < 0x10000 {
      DecodeFirstThree(c, rest);
    } else {
      DecodeFirstFour(c, rest);
    }
  }

  /** Six-bit digits are recovered from the number they make up. */
  lemma Undigits(q: int, r: int)
    requires 0 <= q && 0 <= r < 0x40
    ensures (q * 0x40 + r) / 0x40 == q && (q * 0x40 + r) % 0x40 == r
  {
  }

  lemma EncodeCharTwo(bs: seq<byte>)
    requires 2 <= |bs| && 0xC2 <= bs[0] <= 0xDF && Continuation(bs[1])
    ensures DecodeFirst(bs).Some? && EncodeChar(DecodeFirst(bs).value.0) == bs[..2]
  {
    Undigits(bs[0] as int - 0xC0, bs[1] as int - 0x80);
  }

  lemma EncodeCharThree(bs: seq<byte>)
    requires 3 <= |bs| && 0xE0 <= bs[0] <= 0xEF && SecondOfThree(bs[0], bs[1]) && Continuation(bs[2])
    ensures DecodeFirst(bs).Some? && EncodeChar(DecodeFirst(bs).value.0) == bs[..3]
  {
    var hi := (bs[0] as int - 0xE0) * 0x40 + (bs[1] as int - 0x80);
    Undigits(hi, bs[2] as int - 0x80);
    Undigits(bs[0] as int - 0xE0, bs[1] as int - 0x80);
  }

  lemma EncodeCharFour(bs: seq<byte>)
    requires 4 <= |bs| && 0xF0 <= bs[0] <= 0xF4 && SecondOfFour(bs[0], bs[1]) && Continuation(bs[2]) && Continuation(bs[3])
    ensures DecodeFirst(bs).Some? && EncodeChar(DecodeFirst(bs).value.0) == bs[..4]
  {
    var hi := (bs[0] as int - 0xF0) * 0x40 + (bs[1] as int - 0x80);
    var mid := hi * 0x40 + (bs[2] as int - 0x80);
    Undigits(mid, bs[3] as int - 0x80);
    Undigits(hi, bs[2] as int - 0x80);
    Undigits(bs[0] as int - 0xF0, bs[1] as int - 0x80);
  }

  /** A well-formed sequence is the encoding of the character it decodes to: there is no overlong form. */
  lemma EncodeCharDecodeFirst(bs: seq<byte>)
    requires bs != [] && DecodeFirst(bs).Some?
    ensures EncodeChar(DecodeFirst(bs).value.0) == bs[..DecodeFirst(bs).value.1]
  {
    var b0 := bs[0];
    if 0xC2 <= b0 <= 0xDF {
      EncodeCharTwo(bs);
    } else if 0xE0 <= b0 <= 0xEF {
      EncodeCharThree(bs);
    } else if 0xF0 <= b0 <= 0xF4 {
      EncodeCharFour(bs);
    }
  }

  /** Decoding an encoded text gives the text back. */
  lemma {:induction false} DecodeEncode(s: string)
    ensures Decode(Encode(s)) == Some(s)
    decreases |s|
  {
    if s != [] {
      var e := EncodeChar(s[0]);
      var bs := Encode(s);
      assert bs == e + Encode(s[1..]);
      DecodeFirstEncodeChar(s[0], Encode(s[1..]));
      assert bs[|e|..] == Encode(s[1..]);
      DecodeEncode(s[1..]);
      assert s == [s[0]] + s[1..];
    }
  }

  /** A byte string that decodes is the encoding of what it decodes to. */
  lemma {:induction false} EncodeDecode(bs: seq<byte>)
    requires Decode(bs).Some?
    ensures Encode(Decode(bs).value) == bs
    decreases |bs|
  {
    if bs != [] {
      var c := DecodeFirst(bs).value.0;
      var n := DecodeFirst(bs).value.1;
      var t := Decode(bs[n..]).value;
      assert Decode(bs).value == [c] + t;
      EncodeCharDecodeFirst(bs);
      EncodeDecode(bs[n..]);
      assert ([c] + t)[1..] == t;
      SplitAt(bs, n);
    }
  }

  lemma SplitAt(bs: seq<byte>, n: nat)
    requires n <= |bs|
    ensures bs[..n] + bs[n..] == bs
  {
  }

  // ---------------------------------------------------------------------------
  // Trimming

  /**
   * Rust's `char::is_whitespace`: the characters with the Unicode
   * White_Space property.
   */
  predicate IsWhitespace(c: char) {
    var n := c as int;
    || (0x09 <= n <= 0x0D) || n == 0x20 || n == 0x85 || n == 0xA0 || n == 0x1680
    || (0x2000 <= n <= 0x200A) || n == 0x2028 || n == 0x2029 || n == 0x202F
    || n == 0x205F || n == 0x3000
  }

  /** The length of the longest all-whitespace prefix. */
  function Leading(s: string): (n: nat)
    ensures n <= |s|
    ensures forall k :: 0 <= k < n ==> IsWhitespace(s[k])
    ensures n < |s| ==> !IsWhitespace(s[n])
    decreases |s|
  {
    if s != [] && IsWhitespace(s[0]) then 1 + Leading(s[1..]) else 0
  }

  /** The length of the longest all-whitespace suffix. */
  function Trailing(s: string): (n: nat)
    ensures n <= |s|
    ensures forall k :: |s| - n <= k < |s| ==> IsWhitespace(s[k])
    ensures n < |s| ==> !IsWhitespace(s[|s| - n - 1])
    decreases |s|
  {
    if s != [] && IsWhitespace(s[|s| - 1]) then 1 + Trailing(s[..|s| - 1]) else 0
  }

  /** Rust's `str::trim`: the text without its leading and trailing whitespace. */
  function Trim(s: string): string {
    var t := s[Leading(s)..];
    t[..|t| - Trailing(t)]
  }

  /**
   * The trimmed text is a slice of the text; what was cut off at either end
   * is whitespace, and the slice neither starts nor ends with whitespace.
   */
  lemma TrimSlice(s: string)
    ensures exists i, j :: (0 <= i <= j <= |s| && Trim(s) == s[i..j]
      && (forall k :: 0 <= k < i ==> IsWhitespace(s[k]))
      && (forall k :: j <= k < |s| ==> IsWhitespace(s[k])))
    ensures Trim(s) != [] ==> !IsWhitespace(Trim(s)[0]) && !IsWhitespace(Trim(s)[|Trim(s)| - 1])
  {
    var i := Leading(s);
    var t := s[i..];
    var j := i + |t| - Trailing(t);
    assert Trim(s) == s[i..j];
    assert forall k :: j <= k < |s| ==> s[k] == t[k - i];
    if Trim(s) != [] {
      assert Trim(s)[0] == t[0];
    }
  }

  /** Trimming twice is trimming once. */
  lemma TrimIdempotent(s: string)
    ensures Trim(Trim(s)) == Trim(s)
  {
    var r := Trim(s);
    TrimSlice(s);
    if r != [] {
      assert Leading(r) == 0;
      assert Trailing(r) == 0;
    }
  }

  // ---------------------------------------------------------------------------
  // The version field of an editor's output

  const SPACE: byte := 0x20

  /** The position of the first space, or the length when there is none. */
  function FirstSpace(bs: seq<byte>): (n: nat)
    ensures n <= |bs|
    ensures n < |bs| ==> bs[n] == SPACE
    ensures forall k :: 0 <= k < n ==> bs[k] != SPACE
    decreases |bs|
  {
    if bs == [] || bs[0] == SPACE then 0 else 1 + FirstSpace(bs[1..])
  }

  /** The bytes of the output before its first space; all of it when there is no space. */
  function FirstField(bs: seq<byte>): (r: seq<byte>)
    ensures SPACE !in r
    ensures r == bs || (|r| < |bs| && bs[|r|] == SPACE)
  {
    bs[..FirstSpace(bs)]
  }
}
