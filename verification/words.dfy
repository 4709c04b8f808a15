/**
 * Bytes and the 32-bit words that Mach-O records store in them, in either
 * byte order.
 */
module Words {
  /** A byte of a buffer. */
  newtype byte = b: int | 0 <= b < 256

  /**
   * The number stored in four bytes, most significant first. Counts and sizes
   * are used as numbers once the source casts them to usize.
   */
  function Value(b3: byte, b2: byte, b1: byte, b0: byte): nat {
    b3 as nat * 0x100_0000 + b2 as nat * 0x1_0000 + b1 as nat * 0x100 + b0 as nat
  }

  /** The 32-bit field at `off`, read in the given byte order (big-endian when `big`). */
  function U32Value(s: seq<byte>, off: nat, big: bool): (r: nat)
    requires off + 4 <= |s|
    ensures r < 0x1_0000_0000
  {
    if big then Value(s[off], s[off + 1], s[off + 2], s[off + 3])
    else Value(s[off + 3], s[off + 2], s[off + 1], s[off])
  }

  /** The four bytes of `n`, most significant first. */
  function BytesOf(n: nat): (r: seq<byte>)
    requires n < 0x1_0000_0000
    ensures |r| == 4 && Value(r[0], r[1], r[2], r[3]) == n
  {
    var q1 := n / 0x100;
    var q2 := q1 / 0x100;
    var q3 := q2 / 0x100;
    [q3 as byte, (q2 % 0x100) as byte, (q1 % 0x100) as byte, (n % 0x100) as byte]
  }

  /** Four bytes are the only encoding of their value: BytesOf inverts Value. */
  lemma BytesOfValue(b3: byte, b2: byte, b1: byte, b0: byte)
    ensures BytesOf(Value(b3, b2, b1, b0)) == [b3, b2, b1, b0]
  {
    var n := Value(b3, b2, b1, b0);
    var q1 := b3 as nat * 0x1_0000 + b2 as nat * 0x100 + b1 as nat;
    var q2 := b3 as nat * 0x100 + b2 as nat;
    assert n == q1 * 0x100 + b0 as nat;
    assert q1 == q2 * 0x100 + b1 as nat;
    assert n / 0x100 == q1 && n % 0x100 == b0 as nat;
    assert q1 / 0x100 == q2 && q1 % 0x100 == b1 as nat;
    assert q2 / 0x100 == b3 as nat && q2 % 0x100 == b2 as nat;
  }

  /** The four bytes that store `n` in the given byte order. */
  function WordBytes(n: nat, big: bool): (r: seq<byte>)
    requires n < 0x1_0000_0000
    ensures |r| == 4
    ensures big ==> Value(r[0], r[1], r[2], r[3]) == n
    ensures !big ==> Value(r[3], r[2], r[1], r[0]) == n
  {
    var b := BytesOf(n);
    if big then b else [b[3], b[2], b[1], b[0]]
  }

  /** `s` with the 32-bit field at `off` set to `n`; no other byte changes. */
  function SetU32At(s: seq<byte>, off: nat, n: nat, big: bool): (r: seq<byte>)
    requires off + 4 <= |s| && n < 0x1_0000_0000
    ensures |r| == |s|
    ensures forall j :: 0 <= j < |s| && !(off <= j < off + 4) ==> r[j] == s[j]
    ensures U32Value(r, off, big) == n
  {
    var w := WordBytes(n, big);
    var r := s[..off] + w + s[off + 4..];
    assert r[off] == w[0] && r[off + 1] == w[1] && r[off + 2] == w[2] && r[off + 3] == w[3];
    r
  }

  /** Writing back the value a field already holds changes nothing. */
  lemma SetU32AtSame(s: seq<byte>, off: nat, big: bool)
    requires off + 4 <= |s|
    ensures SetU32At(s, off, U32Value(s, off, big), big) == s
  {
    var r := SetU32At(s, off, U32Value(s, off, big), big);
    if big {
      BytesOfValue(s[off], s[off + 1], s[off + 2], s[off + 3]);
    } else {
      BytesOfValue(s[off + 3], s[off + 2], s[off + 1], s[off]);
    }
    assert r[off] == s[off] && r[off + 1] == s[off + 1] && r[off + 2] == s[off + 2] && r[off + 3] == s[off + 3];
    assert forall j :: 0 <= j < |s| ==> r[j] == s[j];
  }

  /** A field read through a suffix of the buffer is the field at the same place in the buffer. */
  lemma U32ValueSuffix(s: seq<byte>, pos: nat, off: nat, big: bool)
    requires pos + off + 4 <= |s|
    ensures U32Value(s[pos..], off, big) == U32Value(s, pos + off, big)
  {
    assert s[pos..][off] == s[pos + off] && s[pos..][off + 1] == s[pos + off + 1];
    assert s[pos..][off + 2] == s[pos + off + 2] && s[pos..][off + 3] == s[pos + off + 3];
  }

  /** Read the 32-bit field at `off` of the buffer. */
  method ReadU32(buf: array<byte>, off: nat, big: bool) returns (v: nat)
    requires off + 4 <= buf.Length
    ensures v == U32Value(buf[..], off, big)
  {
    if big {
      v := Value(buf[off], buf[off + 1], buf[off + 2], buf[off + 3]);
    } else {
      v := Value(buf[off + 3], buf[off + 2], buf[off + 1], buf[off]);
    }
  }

  /** Store `n` in the 32-bit field at `off` of the buffer, in place. */
  method WriteU32(buf: array<byte>, off: nat, n: nat, big: bool)
    requires off + 4 <= buf.Length && n < 0x1_0000_0000
    modifies buf
    ensures buf[..] == SetU32At(old(buf[..]), off, n, big)
  {
    var bytes := WordBytes(n, big);
    buf[off], buf[off + 1], buf[off + 2], buf[off + 3] := bytes[0], bytes[1], bytes[2], bytes[3];
    assert buf[..] == old(buf[..])[..off] + bytes + old(buf[..])[off + 4..];
  }
}
