/** Decimal text for unsigned integers: the `{}` formatter, zero padding, and
    the `parse::<u64>` reader used by superevent ids and by FITS integer cards. */
module Decimal {
  import opened Wrappers

  const U64_LIMIT: nat := 0x1_0000_0000_0000_0000

  type U64 = n: nat | n < U64_LIMIT

  predicate IsDigit(c: char) {
    '0' <= c <= '9'
  }

  predicate AllDigits(s: string) {
    forall i :: 0 <= i < |s| ==> IsDigit(s[i])
  }

  function DigitChar(d: nat): char
    requires d < 10
  {
    ('0' as int + d) as char
  }

  // Shortest decimal text.
  function Digits(n: nat): (s: string)
    ensures |s| > 0 && AllDigits(s)
  {
    if n < 10 then [DigitChar(n)] else Digits(n / 10) + [DigitChar(n % 10)]
  }

  // Number denoted by a string of digits; the empty string denotes 0.
  function Value(s: string): nat
    requires AllDigits(s)
  {
    if s == [] then 0 else 10 * Value(s[..|s| - 1]) + (s[|s| - 1] as int - '0' as int)
  }

  lemma {:induction false} ValueOfDigits(n: nat)
    ensures Value(Digits(n)) == n
  {
    if n < 10 {
      assert Digits(n)[..0] == [];
    } else {
      ValueOfDigits(n / 10);
      assert Digits(n)[..|Digits(n)| - 1] == Digits(n / 10);
    }
  }

  function Repeat<T>(x: T, k: nat): (s: seq<T>)
    ensures |s| == k && forall i :: 0 <= i < k ==> s[i] == x
  {
    seq(k, _ => x)
  }

  function PadLeft(s: string, width: nat, fill: char): (r: string)
    ensures |r| == if |s| < width then width else |s|
  {
    if |s| < width then Repeat(fill, width - |s|) + s else s
  }

  lemma {:induction false} ValueSkipsZeros(k: nat, s: string)
    requires AllDigits(s)
    ensures AllDigits(Repeat('0', k) + s) && Value(Repeat('0', k) + s) == Value(s)
    decreases |s|, k
  {
    var t := Repeat('0', k) + s;
    if s != [] {
      ValueSkipsZeros(k, s[..|s| - 1]);
      assert t[..|t| - 1] == Repeat('0', k) + s[..|s| - 1];
    } else if k > 0 {
      ValueSkipsZeros(k - 1, []);
      assert t[..|t| - 1] == Repeat('0', k - 1) + [];
    }
  }

  // `{:06}` and friends: zero padding never changes the number read back.
  lemma ValueOfZeroPadded(n: nat, width: nat)
    ensures AllDigits(PadLeft(Digits(n), width, '0'))
    ensures Value(PadLeft(Digits(n), width, '0')) == n
  {
    ValueOfDigits(n);
    if |Digits(n)| < width {
      ValueSkipsZeros(width - |Digits(n)|, Digits(n));
    }
  }

  /** `str::parse::<u64>`: one optional leading '+', then at least one digit and
      nothing else; a number that does not fit is an error. */
  function ParseU64(s: string): (r: Option<U64>)
  {
    var t := if |s| > 1 && s[0] == '+' then s[1..] else s;
    if t == [] || !AllDigits(t) || Value(t) >= U64_LIMIT then None else Some(Value(t))
  }

  lemma ParseOfZeroPadded(n: nat, width: nat)
    ensures ParseU64(PadLeft(Digits(n), width, '0')) == if n < U64_LIMIT then Some(n) else None
  {
    ValueOfZeroPadded(n, width);
    var s := PadLeft(Digits(n), width, '0');
    assert IsDigit(s[0]);
  }

  function Pow10(k: nat): (p: nat)
    ensures p > 0
  {
    if k == 0 then 1 else 10 * Pow10(k - 1)
  }

  lemma {:induction false} DigitsLength(n: nat, k: nat)
    requires 0 < k && n < Pow10(k)
    ensures |Digits(n)| <= k
  {
    if n < 10 {
    } else {
      assert k > 1;
      DigitsLength(n / 10, k - 1);
    }
  }

  // ------------------------------------------------- the digits themselves

  // Digit i from the right is the one of weight 10^i, and none is wasted.
  lemma {:induction false} DigitsArePositional(n: nat, i: nat)
    requires i < |Digits(n)|
    ensures Digits(n)[|Digits(n)| - 1 - i] as int - '0' as int == n / Pow10(i) % 10
    ensures n > 0 ==> Digits(n)[0] != '0'
    ensures n == 0 ==> Digits(n) == "0"
  {
    if n < 10 {
    } else {
      DigitsArePositional(n / 10, if i == 0 then 0 else i - 1);
      if i > 0 { DivideTwice(n, Pow10(i - 1)); }
    }
  }

  lemma DivideTwice(n: nat, p: nat)
    requires p > 0
    ensures n / (10 * p) == n / 10 / p
  {
    var q, r := n / 10 / p, n / 10 % p;
    assert n / 10 == q * p + r;
    assert n == 10 * (q * p + r) + n % 10;
    assert n == q * (10 * p) + (10 * r + n % 10);
    QuotientIs(n, 10 * p, q, 10 * r + n % 10);
  }

  lemma QuotientIs(n: nat, d: nat, q: nat, r: nat)
    requires d > 0 && n == q * d + r && r < d
    ensures n / d == q
  {
    var k := q - n / d;
    assert k * d == n % d - r;
    assert k >= 1 ==> k * d >= d;
    assert k < 0 ==> k * d + d <= 0;
  }

  // A digit more on the right.
  lemma ValuePush(s: string, c: char)
    requires AllDigits(s) && IsDigit(c)
    ensures AllDigits(s + [c]) && Value(s + [c]) == 10 * Value(s) + (c as int - '0' as int)
  {
    assert (s + [c])[..|s|] == s;
  }

  lemma DigitsAreTen(c: char)
    ensures IsDigit(c) <==> c in "0123456789"
  {
  }

  /** Exactly the numerals are read: digits, after at most one plus sign, whose number
      fits in 64 bits. */
  lemma ParsesIff(s: string, n: nat)
    ensures ParseU64(s) == Some(n) <==>
      exists digits: string :: IsNumeralText(s, digits, n)
  {
    if ParseU64(s) == Some(n) {
      var t := if |s| > 1 && s[0] == '+' then s[1..] else s;
      if |s| > 1 && s[0] == '+' { assert s == "+" + t; }
      assert IsNumeralText(s, t, n);
    }
    forall digits: string | IsNumeralText(s, digits, n) ensures ParseU64(s) == Some(n) {
      assert IsDigit(digits[0]);
      if s == "+" + digits { assert s[1..] == digits && s[0] == '+'; }
    }
  }

  predicate IsNumeralText(s: string, digits: string, n: nat) {
    && digits != "" && AllDigits(digits) && (s == digits || s == "+" + digits)
    && Value(digits) == n < 0x1_0000_0000_0000_0000
  }

  // The fill goes in front, as often as needed.
  lemma PadLeftIs(s: string, width: nat, fill: char)
    ensures
      var r := PadLeft(s, width, fill);
      && |r| >= |s| && |r| >= width && (|r| == |s| || |r| == width) && r[|r| - |s|..] == s
      && forall i :: 0 <= i < |r| - |s| ==> r[i] == fill
  {
  }
}
