/** Positions on a circle of a power-of-two number of slots, as both hash tables walk it. */
module Circle {
  import opened Words

  ghost predicate IsTableSize(n: nat) {
    n >= 2 && exists k: nat :: k <= 63 && n == Pow2(k)
  }

  /** Steps forward from `from` to reach `to`. */
  function Dist(from: nat, to: nat, n: nat): (d: nat)
    requires from < n && to < n
  {
    if from <= to then to - from else n - from + to
  }

  function Next(i: nat, n: nat): nat {
    if i + 1 == n then 0 else i + 1
  }

  /** The slot `steps` after `from`. */
  function At(from: nat, steps: nat, n: nat): (i: nat)
    requires from < n && steps < n
    ensures i < n && Dist(from, i, n) == steps
  {
    if from + steps < n then from + steps else from + steps - n
  }

  /** `k` is on the probe path that starts at `home` and ends at `i`. */
  predicate OnPath(home: nat, k: nat, i: nat, n: nat)
    requires home < n && k < n && i < n
  {
    Dist(home, k, n) <= Dist(home, i, n)
  }

  lemma TableFits(n: nat)
    requires IsTableSize(n)
    ensures n < U64
  {
    var k: nat :| k <= 63 && n == Pow2(k);
    Pow2Monotone(k, 63);
    Pow2Is32And64();
  }

  /** The sources step with `(index + 1) & mask`. */
  lemma NextByMask(i: nat, n: nat)
    requires IsTableSize(n) && i < n
    ensures And(i + 1, n - 1) == Next(i, n)
  {
    var k: nat :| k <= 63 && n == Pow2(k);
    MaskIsMod(i + 1, k);
    if i + 1 < n {
      DivModUnique(i + 1, n, 0, i + 1);
    } else {
      DivModUnique(i + 1, n, 1, 0);
    }
  }

  /** The sources measure distance with the wrapping difference `(to - from) & mask`. */
  lemma DistByMask(from: nat, to: nat, n: nat)
    requires IsTableSize(n) && from < n && to < n
    ensures And((U64 + to - from) % U64, n - 1) == Dist(from, to, n)
  {
    hide And, Pow2;
    var k: nat :| k <= 63 && n == Pow2(k);
    Pow2Is32And64();
    Pow2Monotone(k, 64);
    var x := (U64 + to - from) % U64;
    MaskIsMod(x, k);
    if from <= to {
      assert x == to - from;
      DivModUnique(x, n, 0, x);
    } else {
      Pow2Splits(64 - k, k);
      BelowMultiple(Pow2(64 - k), n, from - to);
    }
  }

  lemma BelowMultiple(c: nat, n: nat, d: nat)
    requires c > 0 && 0 < d < n
    ensures c * n >= n && (c * n - d) % n == n - d
  {
    assert c * n == (c - 1) * n + n;
    DivModUnique(c * n - d, n, c - 1, n - d);
  }

  /** `hash & mask` always names a slot. */
  lemma HomeInRange(hash: nat, n: nat)
    requires n > 0
    ensures And(hash, n - 1) < n
  {
    AndFits(hash, n - 1);
  }

  /** `(index + 1) & mask` */
  function Advance(i: nat, n: nat): (j: nat)
    requires IsTableSize(n) && i < n
    ensures j == Next(i, n)
  {
    NextByMask(i, n);
    And(i + 1, n - 1)
  }

  /** `(to - from) & mask` on 64-bit operands */
  function MaskedDistance(from: nat, to: nat, n: nat): (d: nat)
    requires IsTableSize(n) && from < n && to < n
    ensures d == Dist(from, to, n)
  {
    DistByMask(from, to, n);
    And((U64 + to - from) % U64, n - 1)
  }
}
