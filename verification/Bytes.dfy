/** Byte strings, ASCII text, and fixed-width integers in either byte order. */
module ByteStrings {
  import opened Wrappers
  import opened Decimal

  type Byte = n: int | 0 <= n < 256

  type Bytes = seq<Byte>

  // A string all of whose characters are ASCII.
  predicate IsAscii(s: string) {
    forall i :: 0 <= i < |s| ==> s[i] as int < 128
  }

  function Ascii(s: string): (b: Bytes)
    requires IsAscii(s)
    ensures |b| == |s|
  {
    seq(|s|, i requires 0 <= i < |s| => s[i] as int)
  }

  predicate IsTail(b: Byte) {
    0x80 <= b < 0xC0
  }

  // The six bits a continuation byte carries.
  function Tail(b: Byte): int {
    (b as int) % 64
  }

  /** The first character of UTF-8 text and its length in bytes (section 4 of RFC
      3629): shortest forms only, no surrogates. */
  function FirstChar(b: Bytes): (r: Option<(char, nat)>)
    requires b != []
    ensures r.Some? ==> 1 <= r.value.1 <= |b|
  {
    var x: int := b[0];
    if x < 0x80 then Some((x as char, 1))
    else if 0xC2 <= x < 0xE0 && |b| >= 2 && IsTail(b[1]) then
      Some((((x - 0xC0) * 64 + Tail(b[1])) as char, 2))
    else if 0xE0 <= x < 0xF0 && |b| >= 3 && IsTail(b[1]) && IsTail(b[2]) then
      var n := (x - 0xE0) * 4096 + Tail(b[1]) * 64 + Tail(b[2]);
      if n < 0x800 || 0xD800 <= n < 0xE000 then None else Some((n as char, 3))
    else if 0xF0 <= x < 0xF5 && |b| >= 4 && IsTail(b[1]) && IsTail(b[2]) && IsTail(b[3]) then
      var n := (x - 0xF0) * 262144 + Tail(b[1]) * 4096 + Tail(b[2]) * 64 + Tail(b[3]);
      if n < 0x10000 || n >= 0x110000 then None else Some((n as char, 4))
    else None
  }

  // `str::from_utf8`.
  function Text(b: Bytes): Option<string> {
    if b == [] then Some("")
    else
      match FirstChar(b)
      case None => None
      case Some(c) =>
        match Text(b[c.1..])
        case None => None
        case Some(rest) => Some([c.0] + rest)
  }

  lemma {:induction false} TextOfAscii(s: string)
    requires IsAscii(s)
    ensures Text(Ascii(s)) == Some(s)
  {
    if s == "" {
    } else {
      TextOfAscii(s[1..]);
      assert Ascii(s)[1..] == Ascii(s[1..]);
      assert s == [s[0]] + s[1..];
    }
  }

  function Pow256(k: nat): (p: nat)
    ensures p > 0
  {
    if k == 0 then 1 else 256 * Pow256(k - 1)
  }

  // `u64::to_be_bytes` at width k.
  function BigEndian(n: nat, k: nat): (b: Bytes)
    requires n < Pow256(k)
    ensures |b| == k
  {
    if k == 0 then [] else BigEndian(n / 256, k - 1) + [n % 256]
  }

  function FromBigEndian(b: Bytes): (n: nat)
    ensures n < Pow256(|b|)
  {
    if b == [] then 0 else 256 * FromBigEndian(b[..|b| - 1]) + b[|b| - 1]
  }

  lemma {:induction false} BigEndianRoundTrip(n: nat, k: nat)
    requires n < Pow256(k)
    ensures FromBigEndian(BigEndian(n, k)) == n
  {
    if k == 0 {
    } else {
      BigEndianRoundTrip(n / 256, k - 1);
      assert BigEndian(n, k)[..k - 1] == BigEndian(n / 256, k - 1);
    }
  }

  lemma PushesByte(init: Bytes, x: Byte, b: Bytes)
    requires b == init + [x]
    ensures FromBigEndian(b) == 256 * FromBigEndian(init) + x
  {
    assert b[..|b| - 1] == init;
  }

  // The value of eight bytes, the most significant first.
  lemma EightBigEndian(b: Bytes)
    requires |b| == 8
    ensures FromBigEndian(b)
         == 0x100_0000_0000_0000 * (b[0] as int) + 0x1_0000_0000_0000 * (b[1] as int)
            + 0x100_0000_0000 * (b[2] as int) + 0x1_0000_0000 * (b[3] as int) + 0x100_0000 * (b[4] as int)
            + 0x1_0000 * (b[5] as int) + 0x100 * (b[6] as int) + (b[7] as int)
  {
    PushesByte(b[..0], b[0], b[..1]);
    PushesByte(b[..1], b[1], b[..2]);
    PushesByte(b[..2], b[2], b[..3]);
    PushesByte(b[..3], b[3], b[..4]);
    PushesByte(b[..4], b[4], b[..5]);
    PushesByte(b[..5], b[5], b[..6]);
    PushesByte(b[..6], b[6], b[..7]);
    PushesByte(b[..7], b[7], b);
  }

  function Reversed(b: Bytes): (r: Bytes)
    ensures |r| == |b| && forall i :: 0 <= i < |b| ==> r[i] == b[|b| - 1 - i]
  {
    seq(|b|, i requires 0 <= i < |b| => b[|b| - 1 - i])
  }

  // `u64::to_le_bytes` and its inverse.
  function LittleEndian(n: nat, k: nat): (b: Bytes)
    requires n < Pow256(k)
    ensures |b| == k
  {
    Reversed(BigEndian(n, k))
  }

  function FromLittleEndian(b: Bytes): nat {
    FromBigEndian(Reversed(b))
  }

  lemma LittleEndianRoundTrip(n: nat, k: nat)
    requires n < Pow256(k)
    ensures FromLittleEndian(LittleEndian(n, k)) == n
  {
    BigEndianRoundTrip(n, k);
    assert Reversed(Reversed(BigEndian(n, k))) == BigEndian(n, k);
  }

  lemma EightBytesHoldU64()
    ensures Pow256(8) == U64_LIMIT
  {
    assert Pow256(4) == 0x1_0000_0000;
    assert Pow256(6) == 256 * Pow256(5) == 65536 * Pow256(4);
    assert Pow256(8) == 256 * Pow256(7) == 65536 * Pow256(6);
  }

  // --------------------------------------------------------------- UTF-8

  // The encoder (section 3 of RFC 3629).
  function EncodeChar(c: char): (b: Bytes)
    ensures 1 <= |b| <= 4
  {
    var n := c as int;
    if n < 0x80 then [n]
    else if n < 0x800 then [0xC0 + n / 64, 0x80 + n % 64]
    else if n < 0x10000 then [0xE0 + n / 4096, 0x80 + n / 64 % 64, 0x80 + n % 64]
    else [0xF0 + n / 262144, 0x80 + n / 4096 % 64, 0x80 + n / 64 % 64, 0x80 + n % 64]
  }

  function Utf8(s: string): Bytes {
    if s == "" then [] else EncodeChar(s[0]) + Utf8(s[1..])
  }

  lemma SixBits(n: int, q: int, r: int)
    requires n == 64 * q + r && 0 <= r < 64
    ensures n / 64 == q && n % 64 == r
  {
  }

  // A number below 2^24 in groups of six bits.
  lemma InSixes(n: nat)
    ensures n / 4096 == n / 64 / 64 && n / 262144 == n / 64 / 64 / 64
    ensures n == n / 64 * 64 + n % 64
    ensures n / 64 == n / 4096 * 64 + n / 64 % 64
    ensures n / 4096 == n / 262144 * 64 + n / 4096 % 64
  {
  }

  lemma TailOf(r: int)
    requires 0 <= r < 64
    ensures Tail(0x80 + r) == r && IsTail(0x80 + r)
  {
  }

  lemma FirstCharOfEncoded(c: char, rest: Bytes)
    ensures FirstChar(EncodeChar(c) + rest) == Some((c, |EncodeChar(c)|))
  {
    hide Tail, IsTail;
    var n, b := c as int, EncodeChar(c) + rest;
    InSixes(n);
    TailOf(n % 64);
    TailOf(n / 64 % 64);
    TailOf(n / 4096 % 64);
    var k := |EncodeChar(c)|;
    assert b[0] == EncodeChar(c)[0] && (k > 1 ==> b[1] == EncodeChar(c)[1]);
    assert (k > 2 ==> b[2] == EncodeChar(c)[2]) && (k > 3 ==> b[3] == EncodeChar(c)[3]);
  }

  lemma EncodedFirstChar(b: Bytes)
    requires b != [] && FirstChar(b).Some?
    ensures var (c, k) := FirstChar(b).value; k <= |b| && EncodeChar(c) == b[..k]
  {
    var (c, k) := FirstChar(b).value;
    if k == 1 {
      assert b[..1] == [b[0]];
    } else if k == 2 {
      assert b[..2] == [b[0], b[1]];
      EncodedTwo(b[0], b[1], c);
    } else if k == 3 {
      assert b[..3] == [b[0], b[1], b[2]];
      EncodedThree(b[0], b[1], b[2], c);
    } else {
      assert b[..4] == [b[0], b[1], b[2], b[3]];
      EncodedFour(b[0], b[1], b[2], b[3], c);
    }
  }

  lemma TailBack(y: Byte)
    requires IsTail(y)
    ensures 0 <= Tail(y) < 64 && y as int == 0x80 + Tail(y)
  {
  }

  lemma EncodedTwo(x: Byte, y: Byte, c: char)
    requires 0xC2 <= x < 0xE0 && IsTail(y) && c as int == (x as int - 0xC0) * 64 + Tail(y)
    ensures EncodeChar(c) == [x, y]
  {
    TailBack(y);
    SixBits(c as int, x as int - 0xC0, Tail(y));
  }

  lemma EncodedThree(x: Byte, y: Byte, z: Byte, c: char)
    requires 0xE0 <= x < 0xF0 && IsTail(y) && IsTail(z) && c as int >= 0x800
    requires c as int == (x as int - 0xE0) * 4096 + Tail(y) * 64 + Tail(z)
    ensures EncodeChar(c) == [x, y, z]
  {
    TailBack(y);
    TailBack(z);
    var n, q := c as int, (x as int - 0xE0) * 64 + Tail(y);
    SixBits(n, q, Tail(z));
    SixBits(q, x as int - 0xE0, Tail(y));
    InSixes(n);
  }

  lemma EncodedFour(x: Byte, y: Byte, z: Byte, w: Byte, c: char)
    requires 0xF0 <= x < 0xF5 && IsTail(y) && IsTail(z) && IsTail(w) && c as int >= 0x10000
    requires c as int == (x as int - 0xF0) * 262144 + Tail(y) * 4096 + Tail(z) * 64 + Tail(w)
    ensures EncodeChar(c) == [x, y, z, w]
  {
    TailBack(y);
    TailBack(z);
    TailBack(w);
    var n, p := c as int, (x as int - 0xF0) * 64 + Tail(y);
    var q := p * 64 + Tail(z);
    SixBits(n, q, Tail(w));
    SixBits(q, p, Tail(z));
    SixBits(p, x as int - 0xF0, Tail(y));
    InSixes(n);
  }

  /** Exactly the encodings are read as text: bytes decode to s if and only if s
      encodes to them. */
  lemma {:induction false} TextIff(b: Bytes, s: string)
    ensures Text(b) == Some(s) <==> Utf8(s) == b
    decreases |b| + |s|
  {
    hide FirstChar, EncodeChar;
    if b != [] && FirstChar(b).Some? {
      var (c, k) := FirstChar(b).value;
      EncodedFirstChar(b);
      assert b == EncodeChar(c) + b[k..];
      if Text(b) == Some(s) {
        assert s[1..] == Text(b[k..]).value;
        TextIff(b[k..], s[1..]);
      }
    }
    if s != "" && Utf8(s) == b {
      FirstCharOfEncoded(s[0], Utf8(s[1..]));
      assert b[|EncodeChar(s[0])|..] == Utf8(s[1..]);
      TextIff(Utf8(s[1..]), s[1..]);
      assert s == [s[0]] + s[1..];
    }
  }
}
