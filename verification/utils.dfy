/** Shared constants and value types of both contracts (`src/utils.ts`).
    Amounts are NEAR tokens counted in yocto-NEAR and stored as `u128`;
    timestamps are `u64` nanoseconds; account ids are plain strings. */
module Utils {

  /** 2^128: every `u128` lies strictly below it. */
  const U128_LIMIT: nat := 0x1_0000_0000_0000_0000_0000_0000_0000_0000

  /** 2^64: every `u64` lies strictly below it. */
  const U64_LIMIT: nat := 0x1_0000_0000_0000_0000

  /** True iff `n` is representable as a `u128`. */
  predicate IsAmount(n: int) {
    0 <= n < U128_LIMIT
  }

  /** A token quantity in yocto-NEAR (`Amount = u128`). */
  type Amount = n: nat | IsAmount(n)

  /** A block timestamp (`Timestamp = u64`). */
  type Timestamp = t: nat | t < U64_LIMIT

  /** Account ids are just strings. */
  type AccountId = string

  /** One NEAR in yocto-NEAR, 10^24. */
  const ONE_NEAR: Amount := 1_000_000_000_000_000_000_000_000

  /** Storage stake needed to keep an account alive: 3 NEAR. */
  const MIN_ACCOUNT_BALANCE: Amount := ONE_NEAR * 3

  /** Smallest accepted donation: 1 NEAR. */
  const MIN_DONATION_AMOUNT: Amount := ONE_NEAR * 1

  /** The platform keeps `deposit / PLATFORM_FEE_DIVISOR` of every donation. */
  const PLATFORM_FEE_DIVISOR: Amount := 100

  /** Number of donations per page of `get_donations`. */
  const PAGE_SIZE: nat := 25

  function Pow10(n: nat): nat {
    if n == 0 then 1 else 10 * Pow10(n - 1)
  }

  /** The constants have the values the platform documents, all of them
      fit in a `u128`, and the fee divisor is nonzero so the fee is defined. */
  lemma ConstantValues()
    ensures ONE_NEAR == Pow10(24)
    ensures MIN_ACCOUNT_BALANCE == 3 * Pow10(24)
    ensures MIN_DONATION_AMOUNT == Pow10(24)
    ensures PLATFORM_FEE_DIVISOR != 0 && PLATFORM_FEE_DIVISOR == 100
    ensures PAGE_SIZE == 25
    ensures IsAmount(ONE_NEAR) && IsAmount(MIN_ACCOUNT_BALANCE) && IsAmount(MIN_DONATION_AMOUNT)
  {
    assert Pow10(6) == 1_000_000;
    assert Pow10(12) == 1_000_000_000_000 by {
      Pow10Add(6, 6);
    }
    assert Pow10(24) == 1_000_000_000_000_000_000_000_000 by {
      Pow10Add(12, 12);
    }
  }

  lemma {:induction false} Pow10Add(a: nat, b: nat)
    ensures Pow10(a + b) == Pow10(a) * Pow10(b)
  {
    if a > 0 {
      Pow10Add(a - 1, b);
    }
  }
}
