/** Fixed-width little- and big-endian integers. */
module Binary {
  import opened Base

  function Pow256(k: nat): (p: nat)
    ensures p >= 1
  {
    if k == 0 then 1 else 256 * Pow256(k - 1)
  }

  function ToLe(n: nat, k: nat): (b: Bytes)
    ensures |b| == k
    decreases k
  {
    if k == 0 then [] else [(n % 256) as byte] + ToLe(n / 256, k - 1)
  }

  function FromLe(b: Bytes): nat
  {
    if b == [] then 0 else b[0] + 256 * FromLe(b[1..])
  }

  lemma {:induction false} LeRoundTrip(n: nat, k: nat)
    requires n < Pow256(k)
    ensures FromLe(ToLe(n, k)) == n
    decreases k
  {
    if k > 0 {
      LeRoundTrip(n / 256, k - 1);
      assert ToLe(n, k)[1..] == ToLe(n / 256, k - 1);
    }
  }

  lemma {:induction false} LeBytesRoundTrip(b: Bytes)
    ensures FromLe(b) < Pow256(|b|) && ToLe(FromLe(b), |b|) == b
    decreases |b|
  {
    if b != [] {
      LeBytesRoundTrip(b[1..]);
      var rest := FromLe(b[1..]);
      assert FromLe(b) % 256 == b[0] && FromLe(b) / 256 == rest;
      assert b == [b[0]] + b[1..];
    }
  }

  lemma PowWidths()
    ensures Pow256(2) == 0x1_0000 && Pow256(4) == 0x1_0000_0000 && Pow256(8) == 0x1_0000_0000_0000_0000
  {
    assert Pow256(2) == 256 * Pow256(1);
    assert Pow256(4) == 256 * 256 * Pow256(2);
    assert Pow256(6) == 256 * 256 * Pow256(4);
    assert Pow256(8) == 256 * 256 * Pow256(6);
  }

  function Reversed(b: Bytes): (r: Bytes)
    ensures |r| == |b|
  {
    seq(|b|, i requires 0 <= i < |b| => b[|b| - 1 - i])
  }

  function ToBe(n: nat, k: nat): (b: Bytes)
    ensures |b| == k
  {
    Reversed(ToLe(n, k))
  }

  function FromBe(b: Bytes): nat
  {
    FromLe(Reversed(b))
  }

  lemma BeRoundTrip(n: nat, k: nat)
    requires n < Pow256(k)
    ensures FromBe(ToBe(n, k)) == n
  {
    LeRoundTrip(n, k);
    assert Reversed(Reversed(ToLe(n, k))) == ToLe(n, k);
  }
}
