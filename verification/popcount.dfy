/** `Count1`: the number of one bits of an unsigned value. */
module PopCount {
  import opened Bits

  /** Adds the lowest bit and halves, until nothing is left. */
  function Count1(n: nat): nat
  {
    if n == 0 then 0 else n % 2 + Count1(n / 2)
  }

  /** A value below `2^k` has at most `k` one bits. */
  lemma {:induction false} Count1Bound(n: nat, k: nat)
    requires n < Pow2(k)
    ensures Count1(n) <= k
    decreases k
  {
    if n > 0 {
      Count1Bound(n / 2, k - 1);
    }
  }

  /** `2^k - 1` has exactly `k` one bits. */
  lemma {:induction false} Count1AllOnes(k: nat)
    ensures Count1(Pow2(k) - 1) == k
    decreases k
  {
    if k > 0 {
      var m := Pow2(k) - 1;
      assert m % 2 == 1 && m / 2 == Pow2(k - 1) - 1;
      Count1AllOnes(k - 1);
    }
  }

  /** Within `k` bits, a value and its complement share out the `k` bit
      positions: every position is one in exactly one of them. */
  lemma {:induction false} Count1Complement(n: nat, k: nat)
    requires n < Pow2(k)
    ensures Count1(n) + Count1(Pow2(k) - 1 - n) == k
    decreases k
  {
    if k == 0 {
    } else {
      var c := Pow2(k) - 1 - n;
      assert c % 2 == 1 - n % 2;
      assert c / 2 == Pow2(k - 1) - 1 - n / 2;
      Count1Complement(n / 2, k - 1);
    }
  }
}
