/** Bytes, little-endian encodings and the failure datatype shared by every module. */
module Words {

  datatype Option<+T> = None | Some(value: T)

  type byte = b: int | 0 <= b < 256

  const TWO32: nat := 0x1_0000_0000
  const TWO64: nat := 0x1_0000_0000_0000_0000

  type u64 = n: int | 0 <= n < TWO64

  /** 256 to the power k: the number of values k bytes can hold. */
  function Pow256(k: nat): (r: nat)
    ensures r > 0
  {
    if k == 0 then 1 else 256 * Pow256(k - 1)
  }

  lemma Pow256Values()
    ensures Pow256(1) == 256
    ensures Pow256(2) == 0x1_0000
    ensures Pow256(4) == TWO32
    ensures Pow256(8) == TWO64
  {
    assert Pow256(3) == 0x100_0000;
    assert Pow256(5) == 256 * Pow256(4);
    assert Pow256(6) == 256 * Pow256(5);
    assert Pow256(7) == 256 * Pow256(6);
    assert Pow256(8) == 256 * Pow256(7);
  }

  lemma {:induction false} Pow256Monotone(j: nat, k: nat)
    requires j <= k
    ensures Pow256(j) <= Pow256(k)
  {
    if j < k {
      Pow256Monotone(j, k - 1);
    }
  }

  /** The k low bytes of n, least significant first (`to_le_bytes`, truncating like `as`). */
  function ToLE(n: nat, k: nat): (s: seq<byte>)
    ensures |s| == k
  {
    seq<byte>(k, i requires 0 <= i < k => n / Pow256(i) % 256)
  }

  /** The number a little-endian byte string denotes (`from_le_bytes`). */
  function FromLE(s: seq<byte>): (n: nat)
    ensures n < Pow256(|s|)
  {
    if s == [] then 0 else s[0] + 256 * FromLE(s[1..])
  }

  /** A further most significant byte adds its weight. */
  lemma {:induction false} FromLEAppend(s: seq<byte>, b: byte)
    ensures FromLE(s + [b]) == FromLE(s) + b * Pow256(|s|)
  {
    if s == [] {
      assert [b][1..] == [];
    } else {
      FromLEAppend(s[1..], b);
      assert (s + [b])[1..] == s[1..] + [b];
      var p := Pow256(|s| - 1);
      assert 256 * (b * p) == b * (256 * p);
    }
  }

  /** Decoding undoes encoding up to the truncation to k bytes. */
  lemma {:induction false} FromToLE(n: nat, k: nat)
    ensures FromLE(ToLE(n, k)) == n % Pow256(k)
  {
    if k == 0 {
      assert ToLE(n, k) == [];
    } else {
      var p := Pow256(k - 1);
      assert ToLE(n, k) == ToLE(n, k - 1) + [n / p % 256];
      FromLEAppend(ToLE(n, k - 1), n / p % 256);
      FromToLE(n, k - 1);
      DivModSplit(n, p);
    }
  }

  lemma DivModSplit(n: nat, p: nat)
    requires p > 0
    ensures n % (256 * p) == n % p + (n / p % 256) * p
  {
    var q, r := n / p, n % p;
    var a, b := q / 256, q % 256;
    assert n == p * q + r;
    Distribute(p, a, b);
    ModUnique(n, 256 * p, a, b * p + r);
  }

  lemma Distribute(p: nat, a: nat, b: nat)
    requires b < 256
    ensures p * (256 * a + b) == (256 * p) * a + b * p
    ensures 0 <= b * p <= 255 * p
  {
  }

  /** The quotient and remainder of a division by a positive number are unique. */
  lemma ModUnique(n: int, m: int, q: int, r: int)
    requires 0 <= r < m
    requires n == m * q + r
    ensures n % m == r && n / m == q
  {
    var q', r' := n / m, n % m;
    assert n == m * q' + r';
    assert m * (q - q') == m * q - m * q' == r' - r;
    assert m * (q' - q) == m * q' - m * q == r - r';
    if q > q' {
      MulAtLeast(m, q - q');
    } else if q < q' {
      MulAtLeast(m, q' - q);
    }
  }

  lemma MulAtLeast(m: int, x: int)
    requires m > 0 && x >= 1
    ensures m * x >= m
  {
  }

  /** Fixed-width encodings of in-range numbers are injective. */
  lemma {:induction false} ToLEInjective(m: nat, n: nat, k: nat)
    requires m < Pow256(k) && n < Pow256(k)
    requires ToLE(m, k) == ToLE(n, k)
    ensures m == n
  {
    FromToLE(m, k);
    FromToLE(n, k);
    ModUnique(m, Pow256(k), 0, m);
    ModUnique(n, Pow256(k), 0, n);
  }

  /** A 64-bit word as the eight bytes it is hashed, stored and captured as. */
  function Bytes64(v: u64): (s: seq<byte>)
    ensures |s| == 8
  {
    ToLE(v, 8)
  }

  function Word64(s: seq<byte>): u64
    requires |s| <= 8
  {
    Pow256Monotone(|s|, 8);
    Pow256Values();
    FromLE(s)
  }

  lemma Word64Bytes64(v: u64)
    ensures Word64(Bytes64(v)) == v
  {
    hide ToLE, FromLE, Pow256;
    Pow256Values();
    FromToLE(v, 8);
  }

  /** Equal concatenations with equally long heads have equal heads and tails. */
  lemma AppendInjective<T>(a: seq<T>, b: seq<T>, c: seq<T>, d: seq<T>)
    requires |a| == |c|
    requires a + b == c + d
    ensures a == c && b == d
  {
    assert a == (a + b)[..|a|] == (c + d)[..|a|] == c;
    assert b == (a + b)[|a|..] == (c + d)[|a|..] == d;
  }
}
