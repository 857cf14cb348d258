/** Little-endian byte strings, as `to_le_bytes` writes them. */
module Bytes {
  import opened Common

  type Byte = n: nat | n < 256

  function Pow256(k: nat): (p: nat)
    ensures p >= 1
  {
    if k == 0 then 1 else 256 * Pow256(k - 1)
  }

  function LeBytes(n: nat, k: nat): (bs: seq<Byte>)
    ensures |bs| == k
  {
    if k == 0 then [] else [n % 256] + LeBytes(n / 256, k - 1)
  }

  function ReadLe(bs: seq<Byte>): nat {
    if bs == [] then 0 else bs[0] + 256 * ReadLe(bs[1..])
  }

  /** The lowest byte comes first. */
  lemma {:induction false} LeBytesAt(n: nat, k: nat, i: nat)
    requires i < k
    ensures LeBytes(n, k)[i] == n / Pow256(i) % 256
  {
    if i > 0 {
      LeBytesAt(n / 256, k - 1, i - 1);
      assert LeBytes(n, k)[i] == LeBytes(n / 256, k - 1)[i - 1];
      DivTwice(n, 256, Pow256(i - 1));
    }
  }

  lemma DivTwice(n: nat, a: nat, b: nat)
    requires a >= 1 && b >= 1
    ensures a * b >= 1 && n / (a * b) == n / a / b
  {
    var q, r := n / a, n % a;
    var p, t := q / b, q % b;
    assert n == a * (b * p + t) + r;
    assert n == p * (a * b) + (a * t + r);
    BelowProduct(a, b, t, r);
    DivUnique(n, a * b, p, a * t + r);
  }

  lemma BelowProduct(a: nat, b: nat, t: nat, r: nat)
    requires t < b && r < a
    ensures a * t + r < a * b
  {
    MulBeyond(b - t, a);
    assert a * b == a * t + (b - t) * a;
  }

  lemma {:induction false} LeRoundTrip(n: nat, k: nat)
    requires n < Pow256(k)
    ensures ReadLe(LeBytes(n, k)) == n
  {
    if k > 0 {
      LeRoundTrip(n / 256, k - 1);
      assert LeBytes(n, k)[1..] == LeBytes(n / 256, k - 1);
    }
  }
}
