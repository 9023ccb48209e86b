/**
 * The power table: `pows[i] = i^N` for `0 <= i <= B`, each entry computed by
 * `N` repeated multiplications in 128-bit unsigned arithmetic.
 */
module Powers {

  /** 2^128: the modulus of the source's `unsigned __int128` arithmetic. */
  const U128_MOD: nat := 0x1_0000_0000_0000_0000_0000_0000_0000_0000
  /** The largest u128 value, used by the search as its "no sum yet" sentinel. */
  const U128_MAX: nat := U128_MOD - 1

  /** x^n in exact arithmetic, multiplying on the right as the source does. */
  function Pow(x: nat, n: nat): nat
  {
    if n == 0 then 1 else Pow(x, n - 1) * x
  }

  lemma {:induction false} PowMonotone(x: nat, y: nat, n: nat)
    requires x <= y
    ensures Pow(x, n) <= Pow(y, n)
  {
    if n > 0 {
      PowMonotone(x, y, n - 1);
      MulMonotone(Pow(x, n - 1), Pow(y, n - 1), x, y);
    }
  }

  lemma MulMonotone(a: nat, b: nat, c: nat, d: nat)
    requires a <= b && c <= d
    ensures a * c <= b * d
  {
    assert a * c <= b * c;
    assert b * c <= b * d;
  }

  lemma {:induction false} PowAdd(x: nat, m: nat, k: nat)
    ensures Pow(x, m + k) == Pow(x, m) * Pow(x, k)
  {
    if k > 0 {
      PowAdd(x, m, k - 1);
      MulAssoc(Pow(x, m), Pow(x, k - 1), x);
      assert Pow(x, m + k) == Pow(x, m + k - 1) * x;
    }
  }

  lemma MulAssoc(a: nat, b: nat, c: nat)
    ensures (a * b) * c == a * (b * c)
  {
  }

  /** Reducing the left factor modulo 2^128 first does not change the product modulo 2^128. */
  lemma MulMod(a: nat, x: nat)
    ensures (a % U128_MOD) * x % U128_MOD == a * x % U128_MOD
  {
    var q := a / U128_MOD;
    var r := a % U128_MOD;
    assert a == q * U128_MOD + r;
    assert a * x == (q * x) * U128_MOD + r * x;
    ModAddMultiple(q * x, r * x);
  }

  lemma {:induction false} ModAddMultiple(k: nat, y: nat)
    ensures (k * U128_MOD + y) % U128_MOD == y % U128_MOD
  {
    if k > 0 {
      ModAddMultiple(k - 1, y);
      assert k * U128_MOD + y == ((k - 1) * U128_MOD + y) + U128_MOD;
    }
  }

  /** `powN`: `result` starts at 1 and is multiplied by `x` exactly `n` times, wrapping at 2^128. */
  method PowN(x: nat, n: nat) returns (result: nat)
    requires x < U128_MOD
    ensures result == Pow(x, n) % U128_MOD
  {
    result := 1;
    for i := 0 to n
      invariant result == Pow(x, i) % U128_MOD
    {
      MulMod(Pow(x, i), x);
      result := result * x % U128_MOD;
    }
  }

  /** Below the overflow bound, the wrapped powers of the table are the exact powers. */
  lemma PowNoWrap(i: nat, bound: nat, n: nat)
    requires i <= bound && Pow(bound, n) < U128_MOD
    ensures Pow(i, n) % U128_MOD == Pow(i, n)
  {
    PowMonotone(i, bound, n);
  }

  /** `precompute_pows`: a table of `bound + 1` entries with entry `i` holding `i^n` (mod 2^128). */
  method PrecomputePows(n: nat, bound: nat) returns (pows: seq<nat>)
    requires bound < U128_MOD
    ensures |pows| == bound + 1
    ensures forall i :: 0 <= i <= bound ==> pows[i] == Pow(i, n) % U128_MOD
  {
    var table := new nat[bound + 1];
    for i := 0 to bound + 1
      invariant forall j :: 0 <= j < i ==> table[j] == Pow(j, n) % U128_MOD
    {
      table[i] := PowN(i, n);
    }
    pows := table[..];
  }
}
