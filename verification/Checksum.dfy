/** The internet checksum of section 1 of RFC 1071, as the IP service computes it. */
module Checksum {
  import opened Bytes

  const U32: nat := 0x1_0000_0000

  /** A 16-bit word in network order. */
  function Word(p: seq<byte>, i: nat): (w: nat)
    requires i < |p|
    ensures w <= 0xFFFF
  {
    var high: int, low: int := p[i], if i + 1 < |p| then p[i + 1] else 0;
    256 * high + low
  }

  /** The plain sum of the words; an odd last byte is padded with a zero. */
  function WordSum(p: seq<byte>): (n: nat)
    ensures 2 * n <= 0xFFFF * (|p| + 1) && (p == [] ==> n == 0)
  {
    if |p| == 0 then 0
    else if |p| == 1 then Word(p, 0)
    else Word(p, 0) + WordSum(p[2..])
  }

  /** What folding carries back in leaves: the representative of `n` modulo 65535 in 1..65535, zero
      only for zero. */
  function Folded(n: nat): (f: nat)
    ensures f <= 0xFFFF && (f == 0 <==> n == 0) && f % 0xFFFF == n % 0xFFFF
  {
    if n == 0 then 0 else (n - 1) % 0xFFFF + 1
  }

  function Complement(n: nat): (c: nat)
    ensures c <= 0xFFFF
  {
    0xFFFF - Folded(n)
  }

  lemma FoldOnce(n: nat)
    requires n >= 0x1_0000
    ensures n % 0x1_0000 + n / 0x1_0000 < n
    ensures Folded(n % 0x1_0000 + n / 0x1_0000) == Folded(n)
  {
    var q, r := n / 0x1_0000, n % 0x1_0000;
    assert n == q * 0xFFFF + (q + r);
    ShiftMod(q + r - 1, q);
  }

  lemma ShiftMod(a: nat, k: nat)
    ensures (a + k * 0xFFFF) % 0xFFFF == a % 0xFFFF
  {
    ModUnique(a + k * 0xFFFF, 0xFFFF, a / 0xFFFF + k, a % 0xFFFF);
  }

  /** Splitting off the front at an even place splits the sum. */
  lemma {:induction false} SumSplit(p: seq<byte>, i: nat)
    requires i <= |p| && i % 2 == 0
    ensures WordSum(p) == WordSum(p[..i]) + WordSum(p[i..])
  {
    if i == 0 {
      assert p[0..] == p;
    } else {
      SumSplit(p[2..], i - 2);
      assert p[2..][..i - 2] == p[..i][2..] && p[2..][i - 2..] == p[i..];
    }
  }

  /** What the sum is: nothing for nothing, each pair of bytes a word with the first byte high, and an odd
      last byte as if a zero followed. */
  lemma SumLaws(p: seq<byte>, a: byte, b: byte)
    requires |p| % 2 == 0
    ensures WordSum([]) == 0
    ensures WordSum(p + [a, b]) == WordSum(p) + 256 * (a as int) + b
    ensures WordSum(p + [a]) == WordSum(p + [a, 0])
  {
    forall t: seq<byte> | |t| == 1 || |t| == 2 ensures WordSum(p + t) == WordSum(p) + WordSum(t) {
      SumSplit(p + t, |p|);
      assert (p + t)[..|p|] == p && (p + t)[|p|..] == t;
    }
    assert [a, b][2..] == [] && [a, 0][2..] == [];
    assert |[a, b]| == 2 && |[a]| == 1 && |[a, 0]| == 2;
    assert p + [a, b] == p + ([a, b]);
  }

  /** One more word. */
  lemma SumStep(p: seq<byte>, i: nat)
    requires i + 1 < |p| && i % 2 == 0
    ensures WordSum(p[..i + 2]) == WordSum(p[..i]) + Word(p, i)
  {
    SumSplit(p[..i + 2], i);
    assert p[..i + 2][..i] == p[..i] && |p[..i + 2][i..]| == 2;
    var two := p[..i + 2][i..];
    assert WordSum(two) == Word(two, 0) + WordSum(two[2..]);
  }

  /** A prefix of any buffer a 16-bit length can describe sums to less than 32 bits, seed included. */
  lemma NoOverflow(p: seq<byte>, i: nat, seed: nat)
    requires i <= |p| <= 65535 && seed < 0x8000_0000
    ensures seed + WordSum(p[..i]) < U32
  {}

  /** The odd byte at the end. */
  lemma SumTail(p: seq<byte>)
    requires |p| % 2 == 1
    ensures WordSum(p) == WordSum(p[..|p| - 1]) + Word(p, |p| - 1)
  {
    SumSplit(p, |p| - 1);
  }

  /** The loop over a 32-bit running sum. The sum does not overflow, the folding ends, and the
      result is the complement of the folded true sum. */
  method Csum16(p: seq<byte>, seed: nat) returns (c: nat)
    requires |p| <= 65535 && seed < 0x8000_0000
    ensures c == Complement(seed + WordSum(p)) && c <= 0xFFFF
  {
    hide WordSum, Word, Folded;
    var sum, i := seed, 0;
    assert WordSum(p[..0]) == 0;
    while i + 1 < |p|
      invariant i <= |p| && i % 2 == 0
      invariant sum == seed + WordSum(p[..i])
    {
      SumStep(p, i);
      NoOverflow(p, i + 2, seed);
      sum := (sum + Word(p, i)) % U32;
      i := i + 2;
    }
    NoOverflow(p, |p|, seed);
    assert p[..|p|] == p;
    if |p| % 2 == 1 {
      SumTail(p);
      sum := (sum + Word(p, |p| - 1)) % U32;
    }
    sum := Fold(sum);
    c := 0xFFFF - sum;
  }

  /** Carries are added back in until none is left. */
  method Fold(n: nat) returns (f: nat)
    ensures f == Folded(n)
  {
    f := n;
    while f >= 0x1_0000
      invariant Folded(f) == Folded(n)
    {
      FoldOnce(f);
      f := f % 0x1_0000 + f / 0x1_0000;
    }
  }

  /** The big-endian bytes of a 16-bit value. */
  function Be16(v: nat): (s: seq<byte>)
    ensures |s| == 2
  {
    [v / 256 % 256, v % 256]
  }

  function Patch16(p: seq<byte>, at: nat, v: nat): (q: seq<byte>)
    requires at + 2 <= |p|
    ensures |q| == |p|
  {
    p[..at] + Be16(v) + p[at + 2..]
  }

  /** Rewriting an aligned word moves the sum by the difference and by nothing else. */
  lemma PatchSum(p: seq<byte>, at: nat, v: nat)
    requires at + 2 <= |p| && at % 2 == 0 && v <= 0xFFFF
    ensures WordSum(Patch16(p, at, v)) == WordSum(p) - Word(p, at) + v
  {
    hide WordSum;
    var q := Patch16(p, at, v);
    SumSplit(p, at);
    SumSplit(q, at);
    assert q[..at] == p[..at];
    SumHead(p[at..]);
    SumHead(q[at..]);
    assert p[at..][2..] == q[at..][2..];
    PatchReads(p, at, v);
  }

  lemma SumHead(p: seq<byte>)
    requires |p| >= 2
    ensures WordSum(p) == Word(p, 0) + WordSum(p[2..])
  {}

  lemma PatchReads(p: seq<byte>, at: nat, v: nat)
    requires at + 2 <= |p| && v <= 0xFFFF
    ensures Word(Patch16(p, at, v), at) == v
  {}

  /** What a receiver computes over a message that carries its checksum. */
  predicate Verifies(p: seq<byte>, seed: nat) {
    Complement(seed + WordSum(p)) == 0
  }

  /** Exactly which field values verify: the computed one and its other ones' complement
      spelling, so the replacement of 0 by 0xFFFF that RFC 768 asks for is always sound. */
  lemma FilledVerifies(p: seq<byte>, seed: nat, at: nat, v: nat)
    requires at + 2 <= |p| && at % 2 == 0 && Word(p, at) == 0 && v <= 0xFFFF
    ensures Verifies(Patch16(p, at, v), seed) <==>
              v % 0xFFFF == Complement(seed + WordSum(p)) % 0xFFFF && seed + WordSum(p) + v > 0
  {
    hide WordSum, Patch16, Word;
    PatchSum(p, at, v);
    var n, f := seed + WordSum(p), Folded(seed + WordSum(p));
    ModSum(n, f, v);
  }

  lemma ModSum(n: nat, f: nat, v: nat)
    requires n % 0xFFFF == f % 0xFFFF && f <= 0xFFFF && v <= 0xFFFF
    ensures (n + v) % 0xFFFF == 0 <==> v % 0xFFFF == (0xFFFF - f) % 0xFFFF
  {}

  /** The field `udp_send` stores. */
  function Stored(c: nat): nat { if c == 0 then 0xFFFF else c }

  lemma ComputedVerifies(p: seq<byte>, seed: nat, at: nat)
    requires at + 2 <= |p| && at % 2 == 0 && Word(p, at) == 0
    ensures Verifies(Patch16(p, at, Complement(seed + WordSum(p))), seed)
    ensures Verifies(Patch16(p, at, Stored(Complement(seed + WordSum(p)))), seed)
  {
    hide WordSum, Patch16, Verifies, Word;
    var c := Complement(seed + WordSum(p));
    FilledVerifies(p, seed, at, c);
    FilledVerifies(p, seed, at, Stored(c));
  }

  /** A change to any one aligned word of a message that verified is noticed, unless it swaps the
      two spellings of zero. */
  lemma ChangeNoticed(p: seq<byte>, seed: nat, at: nat, v: nat)
    requires at + 2 <= |p| && at % 2 == 0 && v <= 0xFFFF && Verifies(p, seed)
    ensures Verifies(Patch16(p, at, v), seed) <==>
              v % 0xFFFF == Word(p, at) % 0xFFFF && seed + WordSum(Patch16(p, at, v)) > 0
  {
    hide WordSum, Patch16;
    PatchSum(p, at, v);
    var w := Word(p, at);
    ModSwap(seed + WordSum(p) - w, w, v);
  }

  lemma ModSwap(rest: nat, w: nat, v: nat)
    requires (rest + w) % 0xFFFF == 0
    ensures (rest + v) % 0xFFFF == 0 <==> v % 0xFFFF == w % 0xFFFF
  {}
}
