/** Facts about remainders and finite sets that several modules share. */
module Numbers {
  /** The range of the program's 32-bit unsigned integers. */
  const UNSIGNED_PERIOD: int := 0x1_0000_0000

  lemma ModShift(a: int, k: int, d: int)
    requires d > 0
    ensures (a + k * d) % d == a % d
  {
    var x := a + k * d;
    var q, r := a / d - x / d + k, a % d - x % d;
    assert a == a / d * d + a % d && x == x / d * d + x % d;
    assert q * d == -r;
    LargeMultiple(q, d);
  }

  lemma LargeMultiple(q: int, d: int)
    requires d > 0
    ensures q > 0 ==> q * d >= d
    ensures q < 0 ==> q * d <= -d
  {
  }

  function Below(n: nat): (s: set<nat>)
    ensures |s| == n && forall i: nat :: i in s <==> i < n
  {
    if n == 0 then {} else Below(n - 1) + {n - 1}
  }

  lemma SubsetSize<T>(a: set<T>, b: set<T>)
    requires a <= b
    ensures |a| <= |b|
  {
    assert b == a + (b - a);
  }
}
