/** Bytes, and little-endian numbers of any width. */
module Bytes {
  const U64: nat := 0x1_0000_0000_0000_0000

  type byte = x: int | 0 <= x < 256

  function Zeros(n: nat): (s: seq<byte>)
    ensures |s| == n && forall i :: 0 <= i < n ==> s[i] == 0
  {
    seq(n, _ => 0)
  }

  function Pow256(k: nat): (p: nat)
    ensures p > 0
  {
    if k == 0 then 1 else 256 * Pow256(k - 1)
  }

  /** The low `k` bytes of `n`, least significant first. */
  function Le(n: nat, k: nat): (s: seq<byte>)
    ensures |s| == k
  {
    if k == 0 then [] else [n % 256] + Le(n / 256, k - 1)
  }

  /** The first byte and the rest. */
  lemma LeStep(n: nat, k: nat)
    requires k > 0
    ensures Le(n, k) == [n % 256] + Le(n / 256, k - 1)
  {}

  function FromLe(s: seq<byte>): (n: nat)
    ensures n < Pow256(|s|)
  {
    if s == [] then 0 else s[0] + 256 * FromLe(s[1..])
  }

  /** Reading back what was written gives the number, reduced to its width. */
  lemma {:induction false} LeRoundTrip(n: nat, k: nat)
    ensures FromLe(Le(n, k)) == n % Pow256(k)
  {
    if k > 0 {
      LeRoundTrip(n / 256, k - 1);
      assert Le(n, k)[1..] == Le(n / 256, k - 1);
      ModStep(n, Pow256(k - 1));
    }
  }

  lemma ModStep(n: nat, p: nat)
    requires p > 0
    ensures n % 256 + 256 * ((n / 256) % p) == n % (256 * p)
  {
    var q, r := n / 256 / p, n / 256 % p;
    assert n == 256 * (q * p + r) + n % 256;
    assert 256 * (q * p + r) == q * (256 * p) + 256 * r;
    ModUnique(n, 256 * p, q, 256 * r + n % 256);
  }

  lemma ModUnique(n: nat, d: nat, q: nat, r: nat)
    requires 0 <= r < d && n == q * d + r
    ensures n % d == r
  {
    var q', r' := n / d, n % d;
    assert (q - q') * d == r' - r;
    if q - q' >= 1 { MulAtLeast(q - q', d); }
    if q' - q >= 1 { MulAtLeast(q' - q, d); }
  }

  lemma MulAtLeast(k: nat, d: nat)
    requires k >= 1
    ensures k * d >= d
  {}

  /** Which byte is which: byte `i` counts 256 to the `i`. */
  lemma {:induction false} LeAt(n: nat, k: nat, i: nat)
    requires i < k
    ensures Le(n, k)[i] == n / Pow256(i) % 256
  {
    if i > 0 {
      LeAt(n / 256, k - 1, i - 1);
      DivTwice(n, Pow256(i - 1));
    }
  }

  lemma DivTwice(n: nat, p: nat)
    requires p > 0
    ensures n / 256 / p == n / (256 * p)
  {
    var q, r := n / 256 / p, n / 256 % p;
    assert n == 256 * (q * p + r) + n % 256;
    assert 256 * (q * p + r) == q * (256 * p) + 256 * r;
    DivUnique(n, 256 * p, q, 256 * r + n % 256);
  }

  lemma DivUnique(n: nat, d: nat, q: nat, r: nat)
    requires 0 <= r < d && n == q * d + r
    ensures n / d == q
  {
    ModUnique(n, d, q, r);
    var q' := n / d;
    assert (q - q') * d == 0;
  }

  /** A 64-bit word survives its eight bytes. */
  lemma WordRoundTrip(v: nat)
    requires v < U64
    ensures FromLe(Le(v, 8)) == v
  {
    hide Le, FromLe;
    LeRoundTrip(v, 8);
    assert Pow256(8) == U64;
  }

  /** Bytes determine a number and a number determines its bytes. */
  lemma {:induction false} FromLeRoundTrip(s: seq<byte>)
    ensures Le(FromLe(s), |s|) == s
  {
    if s != [] {
      FromLeRoundTrip(s[1..]);
      var n := FromLe(s);
      assert n % 256 == s[0] && n / 256 == FromLe(s[1..]);
    }
  }

  lemma LeInjective(m: nat, n: nat, k: nat)
    requires m < Pow256(k) && n < Pow256(k) && Le(m, k) == Le(n, k)
    ensures m == n
  {
    LeRoundTrip(m, k);
    LeRoundTrip(n, k);
  }
}
