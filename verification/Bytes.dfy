/** Little-endian byte strings and remainders. */
module Bytes {

  type byte = x: int | 0 <= x < 256

  type u32 = x: int | 0 <= x < 0x1_0000_0000

  type u64 = x: int | 0 <= x < 0x1_0000_0000_0000_0000

  function Pow256(k: nat): (r: nat)
    ensures r > 0
  {
    if k == 0 then 1 else 256 * Pow256(k - 1)
  }

  /** The k low bytes of n, lowest first. */
  function LittleEndian(n: nat, k: nat): (r: seq<byte>)
    ensures |r| == k
  {
    if k == 0 then [] else [n % 256] + LittleEndian(n / 256, k - 1)
  }

  function FromLittleEndian(s: seq<byte>): nat {
    if s == [] then 0 else s[0] + 256 * FromLittleEndian(s[1..])
  }

  /** The remainder modulo 256 * p, from the lowest byte and the rest. */
  lemma LowDigit(n: nat, p: nat)
    requires p > 0
    ensures n % (256 * p) == n % 256 + 256 * (n / 256 % p)
  {
    var m := n / 256;
    var q, r := m / p, m % p;
    assert m == q * p + r;
    MulSwap(q, p);
    ModUnique(n, q, 256 * r + n % 256, 256 * p);
  }

  lemma MulSwap(q: nat, p: nat)
    ensures q * (256 * p) == 256 * (q * p)
  {
  }

  /** Reading back k bytes gives the number modulo 256^k: a narrower field truncates. */
  lemma {:induction false} LittleEndianTruncates(n: nat, k: nat)
    ensures FromLittleEndian(LittleEndian(n, k)) == n % Pow256(k)
  {
    if k > 0 {
      LittleEndianTruncates(n / 256, k - 1);
      LowDigit(n, Pow256(k - 1));
      assert LittleEndian(n, k)[1..] == LittleEndian(n / 256, k - 1);
    }
  }

  /** The i-th byte is the i-th digit to base 256, the lowest first. */
  lemma {:induction false} LittleEndianDigit(n: nat, k: nat, i: nat)
    requires i < k
    ensures LittleEndian(n, k)[i] == n / Pow256(i) % 256
  {
    if i > 0 {
      LittleEndianDigit(n / 256, k - 1, i - 1);
      QuotientTwice(n, 256, Pow256(i - 1));
    }
  }

  lemma QuotientTwice(n: nat, a: nat, b: nat)
    requires a > 0 && b > 0
    ensures a * b > 0 && n / a / b == n / (a * b)
  {
    var q, r := n / a, n % a;
    var q', r' := q / b, q % b;
    assert n == q * a + r && q == q' * b + r';
    assert q * a == q' * (a * b) + r' * a by {
      assert (q' * b + r') * a == q' * b * a + r' * a;
      assert q' * b * a == q' * (a * b);
    }
    MulMonotone(r' + 1, b, a);
    assert (r' + 1) * a == r' * a + a;
    ModUnique(n, q', r' * a + r, a * b);
  }

  lemma LittleEndianRoundTrip(n: nat, k: nat)
    requires n < Pow256(k)
    ensures FromLittleEndian(LittleEndian(n, k)) == n
  {
    LittleEndianTruncates(n, k);
    ModUnique(n, 0, n, Pow256(k));
  }

  lemma LittleEndianInjective(n: nat, m: nat, k: nat)
    requires n < Pow256(k) && m < Pow256(k) && LittleEndian(n, k) == LittleEndian(m, k)
    ensures n == m
  {
    LittleEndianRoundTrip(n, k);
    LittleEndianRoundTrip(m, k);
  }

  lemma {:induction false} FromLittleEndianBound(s: seq<byte>)
    ensures FromLittleEndian(s) < Pow256(|s|)
  {
    if s != [] {
      FromLittleEndianBound(s[1..]);
    }
  }

  lemma Pow256Values()
    ensures Pow256(4) == 0x1_0000_0000
    ensures Pow256(8) == 0x1_0000_0000_0000_0000
  {
    assert Pow256(2) == 65536;
    assert Pow256(4) == 65536 * 65536;
    assert Pow256(6) == 65536 * 65536 * 65536;
  }

  // ---------------------------------------------------------------- remainders

  lemma MulBounds(d: int, c: int)
    requires c > 0
    ensures d >= 1 ==> d * c >= c
    ensures d <= 0 ==> d * c <= 0
    ensures d <= -1 ==> d * c <= -c
  {
  }

  lemma MulMonotone(a: nat, b: nat, c: nat)
    requires a <= b
    ensures a * c <= b * c
  {
  }

  lemma ModUnique(x: int, q: int, r: int, c: int)
    requires c > 0 && x == q * c + r && 0 <= r < c
    ensures x % c == r && x / c == q
  {
    var d := x / c - q;
    assert x == (x / c) * c + x % c;
    assert (x / c) * c - q * c == d * c;
    MulBounds(d, c);
  }

  lemma ModAdd(a: int, b: int, c: int)
    requires c > 0
    ensures (a % c + b) % c == (a + b) % c
  {
    var x := a % c + b;
    assert a == (a / c) * c + a % c;
    assert x == (x / c) * c + x % c;
    assert a + b == (a / c + x / c) * c + x % c;
    ModUnique(a + b, a / c + x / c, x % c, c);
  }

  /** Positions less than c apart do not meet modulo c. */
  lemma ModApart(a: int, b: int, c: int)
    requires c > 0 && a < b < a + c
    ensures a % c != b % c
  {
    var d := b / c - a / c;
    assert a == (a / c) * c + a % c && b == (b / c) * c + b % c;
    assert b - a == d * c + (b % c - a % c);
    MulBounds(d, c);
    MulBounds(d - 1, c);
  }

  // ---------------------------------------------------------------- positions on a circle

  /** The slot i places after position pos on a circle of c slots. */
  function Wrap(pos: nat, i: nat, c: nat): (r: nat)
    requires c > 0
    ensures r < c
  {
    (pos + i) % c
  }

  lemma WrapNone(pos: nat, c: nat)
    requires pos < c
    ensures Wrap(pos, 0, c) == pos
  {
  }

  lemma WrapTwice(pos: nat, i: nat, j: nat, c: nat)
    requires c > 0
    ensures Wrap(Wrap(pos, i, c), j, c) == Wrap(pos, i + j, c)
    ensures Wrap(pos + i, j, c) == Wrap(pos, i + j, c)
  {
    assert pos + i + j == pos + (i + j);
    ModAdd(pos + i, j, c);
  }

  lemma WrapApart(pos: nat, i: nat, j: nat, c: nat)
    requires c > 0 && i < j < i + c
    ensures Wrap(pos, i, c) != Wrap(pos, j, c)
  {
    ModApart(pos + i, pos + j, c);
  }
}
