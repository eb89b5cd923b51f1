/** The kernel's u64 and atomic64_t arithmetic: unbounded integers reduced modulo 2^64. */
module U64 {
  const MOD: nat := 0x1_0000_0000_0000_0000

  type u64 = x: nat | x < MOD

  /** k full turns of a u64 counter. */
  function Turns(k: int): int {
    k * 0x1_0000_0000_0000_0000
  }

  function Wrap(x: int): u64 {
    x % MOD
  }

  /** u64 addition: the carry out of bit 63 is lost. */
  function Add(a: u64, b: u64): u64 {
    if a + b < MOD then a + b else a + b - MOD
  }

  /** u64 subtraction: a borrow into bit 64 is lost. */
  function Sub(a: u64, b: u64): u64 {
    if a >= b then a - b else a - b + MOD
  }

  /** Equality of two unbounded totals as the hardware sees them. */
  predicate Same(x: int, y: int) {
    Wrap(x) == Wrap(y)
  }

  lemma SameIsMultiple(x: int, y: int) returns (k: int)
    requires Same(x, y)
    ensures x == y + Turns(k)
  {
    k := x / MOD - y / MOD;
  }

  lemma MultipleIsSame(x: int, k: int)
    ensures Same(x + Turns(k), x)
  {
    var y := x + Turns(k);
    var q := y / MOD - k;
    assert y % MOD == x - Turns(q);
    assert 0 <= x - Turns(q) < MOD;
    DivUnique(x, q, y % MOD);
  }

  lemma DivUnique(x: int, q: int, r: int)
    requires x == Turns(q) + r && 0 <= r < MOD
    ensures x % MOD == r
  {
    var d := x / MOD - q;
    assert Turns(d) == r - x % MOD;
    assert -1 < d < 1;
  }

  /** Add and Sub are the modular operations on unbounded totals. */
  lemma AddIsWrap(x: int, y: int)
    ensures Add(Wrap(x), Wrap(y)) == Wrap(x + y)
  {
    WrapAdd(x, y);
    var s := Wrap(x) + Wrap(y);
    DivUnique(s, if s < MOD then 0 else 1, if s < MOD then s else s - MOD);
  }

  lemma SubIsWrap(x: int, y: int)
    ensures Sub(Wrap(x), Wrap(y)) == Wrap(x - y)
  {
    WrapSub(x, y);
    var s := Wrap(x) - Wrap(y);
    DivUnique(s, if s >= 0 then 0 else -1, if s >= 0 then s else s + MOD);
  }

  /** Reducing the operands first changes nothing. */
  lemma WrapAdd(x: int, y: int)
    ensures Wrap(Wrap(x) + Wrap(y)) == Wrap(x + y)
  {
    MultipleIsSame(x % MOD + y % MOD, x / MOD + y / MOD);
    assert x + y == x % MOD + y % MOD + Turns(x / MOD + y / MOD);
  }

  lemma WrapSub(x: int, y: int)
    ensures Wrap(Wrap(x) - Wrap(y)) == Wrap(x - y)
  {
    MultipleIsSame(x % MOD - y % MOD, x / MOD - y / MOD);
    assert x - y == x % MOD - y % MOD + Turns(x / MOD - y / MOD);
  }

  lemma WrapSmall(x: int)
    requires 0 <= x < MOD
    ensures Wrap(x) == x
  {
  }

  lemma ProductBounds(e: int, d: int)
    requires d > 0
    ensures e >= 1 ==> e * d >= d
    ensures e <= -1 ==> e * d <= -d
  {
    if e >= 1 {
      assert (e - 1) * d >= 0;
    } else if e <= -1 {
      assert (-1 - e) * d >= 0;
    }
  }
}
