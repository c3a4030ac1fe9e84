/** IPv4 addresses and prefixes as numbers. */
module Ipv4 {

  const ADDRESS_COUNT: nat := 0x1_0000_0000

  type IPv4 = x: nat | x < ADDRESS_COUNT

  /** 2 to the power `n`. */
  function Pow2(n: nat): (r: nat)
    ensures r > 0
  {
    if n == 0 then 1 else 2 * Pow2(n - 1)
  }

  /** A valid prefix: an address and a mask length. */
  datatype Prefix = Prefix(address: IPv4, bits: nat) {
    ghost predicate Valid() {
      bits <= 32
    }

    function BlockSize(): (r: nat)
      ensures r > 0
    {
      if bits <= 32 then Pow2(32 - bits) else 1
    }

    /** Both addresses lie in the same block of the prefix's size. */
    predicate Contains(other: IPv4) {
      address / BlockSize() == other / BlockSize()
    }
  }

  lemma {:induction false} DefaultContainsEverything(p: Prefix, a: IPv4)
    requires p.bits == 0
    ensures p.Contains(a)
  {
    Pow2Of32();
  }

  lemma Pow2Of32()
    ensures Pow2(32) == ADDRESS_COUNT
  {
    assert Pow2(8) == 256;
    assert Pow2(16) == 65536 by {
      assert Pow2(12) == 4096;
    }
    assert Pow2(24) == 0x100_0000 by {
      assert Pow2(20) == 0x10_0000;
    }
    assert Pow2(28) == 0x1000_0000;
  }

  /** A prefix with a mask leaves some address out. */
  lemma MaskedPrefixExcludes(p: Prefix) returns (a: IPv4)
    requires 0 < p.bits <= 32
    ensures !p.Contains(a)
  {
    var size, blocks := p.BlockSize(), Pow2(p.bits - 1);
    Pow2Adds(32 - p.bits, p.bits - 1);
    assert size * blocks == 0x8000_0000 by {
      Pow2Of32();
      assert Pow2(32) == 2 * Pow2(31);
    }
    if p.address < 0x8000_0000 {
      a := 0xFFFF_FFFF;
      QuotientBelow(p.address, size, blocks);
      QuotientAtLeast(a, size, blocks);
    } else {
      a := 0;
      QuotientBelow(a, size, blocks);
      QuotientAtLeast(p.address, size, blocks);
    }
  }

  lemma {:induction false} Pow2Adds(m: nat, n: nat)
    ensures Pow2(m) * Pow2(n) == Pow2(m + n)
  {
    if m > 0 {
      Pow2Adds(m - 1, n);
      assert (2 * Pow2(m - 1)) * Pow2(n) == 2 * (Pow2(m - 1) * Pow2(n));
    }
  }

  lemma QuotientBelow(x: nat, d: nat, k: nat)
    requires d > 0 && x < d * k
    ensures x / d < k
  {
    var q := x / d;
    assert d * q <= x;
    if q >= k {
      Scale(k, q, d);
      assert false;
    }
  }

  lemma {:induction false} QuotientAtLeast(x: nat, d: nat, k: nat)
    requires d > 0 && x >= d * k
    ensures x / d >= k
  {
    var q := x / d;
    assert x < d * (q + 1);
    if q + 1 <= k {
      Scale(q + 1, k, d);
      assert false;
    }
  }

  lemma Scale(x: nat, y: nat, d: nat)
    requires x <= y
    ensures d * x <= d * y
  {
  }
}
