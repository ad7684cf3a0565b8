/**
 * Byte strings as the service handles them: the minimal big-endian numbers that
 * top-level argument serialization writes, the hexadecimal text that proofs travel in,
 * and the byte order that Merkle pairs are sorted by.
 */
module Encoding {
  type byte = x: int | 0 <= x < 256

  type Bytes = seq<byte>

  type Digest = d: Bytes | |d| == 32 witness seq(32, _ => 0)

  // ----- Numbers -----

  /** A number with no leading zero byte; zero is the empty string. */
  function ToBigEndian(n: nat): Bytes {
    if n == 0 then [] else ToBigEndian(n / 256) + [n % 256]
  }

  function FromBigEndian(b: Bytes): nat {
    if b == [] then 0 else 256 * FromBigEndian(b[..|b| - 1]) + b[|b| - 1]
  }

  lemma {:induction false} BigEndianRoundTrip(n: nat)
    ensures FromBigEndian(ToBigEndian(n)) == n
  {
    if n != 0 {
      BigEndianRoundTrip(n / 256);
      assert ToBigEndian(n)[..|ToBigEndian(n)| - 1] == ToBigEndian(n / 256);
    }
  }

  /** The bytes are the digits to base 256, the most significant first. */
  lemma {:induction false} BigEndianAt(n: nat, i: nat)
    requires i < |ToBigEndian(n)|
    ensures Pow256(|ToBigEndian(n)| - 1 - i) > 0
    ensures ToBigEndian(n)[i] == n / Pow256(|ToBigEndian(n)| - 1 - i) % 256
  {
    var last := |ToBigEndian(n)| - 1;
    PowPositive(last - i);
    if i < last {
      BigEndianAt(n / 256, i);
      PowPositive(last - 1 - i);
      DivideTwice(n, Pow256(last - 1 - i));
    }
  }

  lemma DivideTwice(n: nat, p: nat)
    requires p > 0
    ensures n / 256 / p == n / (256 * p)
  {
    var q, r := n / 256, n % 256;
    var a, b := q / p, q % p;
    assert q == p * a + b;
    assert n == 256 * (p * a + b) + r;
    assert 256 * (p * a) == (256 * p) * a;
    assert 256 * b + r < 256 * p;
    QuotientIs(n, 256 * p, a, 256 * b + r);
  }

  lemma QuotientIs(n: nat, d: nat, a: nat, rest: nat)
    requires rest < d && n == d * a + rest
    ensures n / d == a
  {
    var c := n / d;
    assert n == d * c + n % d;
    TimesGrows(d, a, c);
    TimesGrows(d, c, a);
  }

  lemma TimesGrows(d: nat, a: nat, b: nat)
    ensures a < b ==> d * a + d <= d * b
  {
    if a < b {
      var k: nat := b - a - 1;
      assert d * k >= 0;
      assert d * (a + 1 + k) == d * a + d + d * k;
    }
  }

  lemma BigEndianInjective(m: nat, n: nat)
    requires ToBigEndian(m) == ToBigEndian(n)
    ensures m == n
  {
    BigEndianRoundTrip(m);
    BigEndianRoundTrip(n);
  }

  lemma {:induction false} NoLeadingZero(n: nat)
    ensures n != 0 ==> ToBigEndian(n) != [] && ToBigEndian(n)[0] != 0
  {
    if n >= 256 {
      NoLeadingZero(n / 256);
    } else if n != 0 {
      assert ToBigEndian(n / 256) == [];
    }
  }

  /** Every byte string without a leading zero is the serialization of a number. */
  lemma {:induction false} FromBigEndianRoundTrip(b: Bytes)
    requires b != [] ==> b[0] != 0
    ensures ToBigEndian(FromBigEndian(b)) == b
    ensures b != [] ==> FromBigEndian(b) > 0
  {
    if b != [] {
      var n := |b| - 1;
      FromBigEndianRoundTrip(b[..n]);
      assert FromBigEndian(b) / 256 == FromBigEndian(b[..n]) && FromBigEndian(b) % 256 == b[n];
      assert b == b[..n] + [b[n]];
    }
  }

  function Pow256(k: nat): nat {
    if k == 0 then 1 else 256 * Pow256(k - 1)
  }

  lemma {:induction false} BigEndianLength(n: nat, k: nat)
    ensures |ToBigEndian(n)| <= k <==> n < Pow256(k)
  {
    if n == 0 {
      PowPositive(k);
    } else if k != 0 {
      BigEndianLength(n / 256, k - 1);
    }
  }

  lemma {:induction false} PowPositive(k: nat)
    ensures Pow256(k) > 0
  {
    if k != 0 {
      PowPositive(k - 1);
    }
  }

  // ----- Hexadecimal text -----

  const HEX_DIGITS: string := "0123456789abcdef"

  function HexValue(c: char): int {
    if '0' <= c <= '9' then c as int - '0' as int
    else if 'a' <= c <= 'f' then c as int - 'a' as int + 10
    else if 'A' <= c <= 'F' then c as int - 'A' as int + 10
    else -1
  }

  function ToHex(b: Bytes): (s: string)
    ensures |s| == 2 * |b|
  {
    if b == [] then "" else [HEX_DIGITS[b[0] / 16], HEX_DIGITS[b[0] % 16]] + ToHex(b[1..])
  }

  /** Decoding stops at the first pair that is not two hexadecimal digits, and drops an odd last character. */
  function FromHex(s: string): Bytes {
    if |s| < 2 || HexValue(s[0]) < 0 || HexValue(s[1]) < 0 then []
    else [16 * HexValue(s[0]) + HexValue(s[1])] + FromHex(s[2..])
  }

  lemma HexDigitValue(d: nat)
    requires d < 16
    ensures HexValue(HEX_DIGITS[d]) == d
  {
    if d < 10 {
      assert HEX_DIGITS[d] == ['0', '1', '2', '3', '4', '5', '6', '7', '8', '9'][d];
    } else {
      assert HEX_DIGITS[d] == ['a', 'b', 'c', 'd', 'e', 'f'][d - 10];
    }
  }

  /** Two characters a byte, the upper half first, in lower case. */
  lemma {:induction false} HexAt(b: Bytes, i: nat)
    requires i < |b|
    ensures ToHex(b)[2 * i] == "0123456789abcdef"[b[i] / 16]
    ensures ToHex(b)[2 * i + 1] == "0123456789abcdef"[b[i] % 16]
  {
    if i > 0 {
      HexAt(b[1..], i - 1);
    }
  }

  lemma {:induction false} HexRoundTrip(b: Bytes)
    ensures FromHex(ToHex(b)) == b
  {
    if b != [] {
      HexDigitValue(b[0] / 16);
      HexDigitValue(b[0] % 16);
      HexRoundTrip(b[1..]);
      var s := ToHex(b);
      assert s[2..] == ToHex(b[1..]);
      assert FromHex(s) == [16 * HexValue(s[0]) + HexValue(s[1])] + FromHex(s[2..]);
      assert 16 * (b[0] / 16) + b[0] % 16 == b[0];
    }
  }

  lemma HexCons(x: byte, b: Bytes)
    ensures ToHex([x] + b) == [HEX_DIGITS[x / 16], HEX_DIGITS[x % 16]] + ToHex(b)
  {
    assert ([x] + b)[1..] == b;
  }

  lemma {:induction false} HexConcat(a: Bytes, b: Bytes)
    ensures ToHex(a + b) == ToHex(a) + ToHex(b)
  {
    if a == [] {
      assert a + b == b;
    } else {
      assert a + b == [a[0]] + (a[1..] + b);
      HexCons(a[0], a[1..] + b);
      HexConcat(a[1..], b);
    }
  }

  // ----- Byte order -----

  predicate Precedes(a: Bytes, b: Bytes) {
    if a == [] then b != []
    else if b == [] then false
    else a[0] < b[0] || (a[0] == b[0] && Precedes(a[1..], b[1..]))
  }

  lemma {:induction false} PrecedesTotal(a: Bytes, b: Bytes)
    ensures a == b || Precedes(a, b) || Precedes(b, a)
    ensures !(Precedes(a, b) && Precedes(b, a))
  {
    if a != [] && b != [] {
      PrecedesTotal(a[1..], b[1..]);
      assert a == [a[0]] + a[1..] && b == [b[0]] + b[1..];
    }
  }
}
