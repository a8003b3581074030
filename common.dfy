/** Numeric vocabulary shared by the engine, the rule table and the game helpers. */
module Common {

  datatype Option<T> = None | Some(value: T)

  /** Rust's `u8`: cell states and rule outputs. */
  type u8 = x: int | 0 <= x < 0x100

  /** Rust's `u64`: neighbourhood keys and raw random words. */
  type u64 = x: int | 0 <= x < 0x1_0000_0000_0000_0000

  /** The largest `u64` (and, on the 64-bit targets the program runs on, the largest `usize`). */
  const U64_MAX: int := 0xFFFF_FFFF_FFFF_FFFF

  function Pow2(n: nat): (p: nat)
    ensures p >= 1
  {
    if n == 0 then 1 else 2 * Pow2(n - 1)
  }

  lemma {:induction false} Pow2Monotone(m: nat, n: nat)
    requires m <= n
    ensures Pow2(m) <= Pow2(n)
  {
    if m < n {
      Pow2Monotone(m, n - 1);
    }
  }

  lemma Pow2Of64()
    ensures Pow2(64) == U64_MAX + 1
  {
    assert Pow2(4) == 0x10;
    Pow2Add(4, 4);
    assert Pow2(8) == 0x100;
    Pow2Add(8, 8);
    assert Pow2(16) == 0x1_0000;
    Pow2Add(16, 16);
    assert Pow2(32) == 0x1_0000_0000;
    Pow2Add(32, 32);
  }

  /** Every power below `2^64` fits in a `u64`. */
  lemma Pow2Below64(n: nat)
    requires n < 64
    ensures Pow2(n) <= U64_MAX
  {
    Pow2Monotone(n, 63);
    Pow2Of64();
  }

  lemma {:induction false} Pow2Add(m: nat, n: nat)
    ensures Pow2(m + n) == Pow2(m) * Pow2(n)
  {
    if n > 0 {
      Pow2Add(m, n - 1);
    }
  }

  /** Rust's `/` on signed integers, which truncates toward zero (Dafny's `/` is Euclidean). */
  function TruncDiv(a: int, b: int): int
    requires b > 0
  {
    if a >= 0 then a / b else -((-a) / b)
  }

  /**
   * `Rng::gen_bool(p)` of the rand crate on the generator's next word `w`:
   * the threshold is `floor(p * 2^64)` (2^64 = 18 446 744 073 709 551 616) and the result is `w` below it, except
   * that `p == 1` is always true (and then no word is read).
   */
  predicate GenBool(w: u64, p: real)
    requires 0.0 <= p <= 1.0
  {
    p == 1.0 || w < (p * 18446744073709551616.0).Floor
  }

  /** Probability 0 never fires, probability 1 always fires, and a larger probability fires on every word a smaller one does. */
  lemma GenBoolBounds(w: u64, p: real, q: real)
    requires 0.0 <= p <= q <= 1.0
    ensures !GenBool(w, 0.0) && GenBool(w, 1.0)
    ensures GenBool(w, p) ==> GenBool(w, q)
  {
    assert (p * 18446744073709551616.0).Floor <= (q * 18446744073709551616.0).Floor;
  }

  /** A cell buffer in which every cell is dead (0) or alive (1). */
  ghost predicate Binary(s: seq<u8>) {
    forall i :: 0 <= i < |s| ==> s[i] <= 1
  }

  /** `f32::clamp(p, 0.0, 1.0)` on reals (NaN is not modelled). */
  function Clamp01(p: real): (r: real)
    ensures 0.0 <= r <= 1.0
    ensures 0.0 <= p <= 1.0 ==> r == p
    ensures p < 0.0 ==> r == 0.0
    ensures p > 1.0 ==> r == 1.0
  {
    if p < 0.0 then 0.0 else if p > 1.0 then 1.0 else p
  }

  /** Quotient and remainder are determined by any decomposition `a == q * w + r` with `0 <= r < w`. */
  lemma DivModUnique(a: int, w: int, q: int, r: int)
    requires w > 0 && 0 <= r < w && a == q * w + r
    ensures a / w == q && a % w == r
  {
    var d := a / w - q;
    assert d * w == r - a % w;
    if d >= 1 {
      MulAtLeast(d, w);
    } else if d <= -1 {
      MulAtLeast(-d, w);
    }
  }

  lemma {:induction false} MulAtLeast(d: int, w: int)
    requires d >= 1 && w >= 0
    ensures d * w >= w
  {
    if d > 1 {
      MulAtLeast(d - 1, w);
    }
  }
}

/** Configuration constants (only the hashing ceiling belongs to the modelled core). */
module Config {
  /** 2^16 = 65 536 neighbourhood patterns at most. */
  const MAX_NEIGHBORHOOD_BITS: nat := 16
}
