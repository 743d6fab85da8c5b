/** Fixed-width unsigned integers of the source, and small arithmetic helpers. */
module Ints {

  type u8 = n: int | 0 <= n < 0x100
  type u16 = n: int | 0 <= n < 0x1_0000
  type u32 = n: int | 0 <= n < 0x1_0000_0000
  type u64 = n: int | 0 <= n < 0x1_0000_0000_0000_0000

  function Min(a: int, b: int): int {
    if a < b then a else b
  }

  function Max(a: int, b: int): int {
    if a < b then b else a
  }

  /** Rust's `clamp`, for `lo <= hi`. */
  function Clamp(x: int, lo: int, hi: int): int {
    if x < lo then lo else if x > hi then hi else x
  }

  /** Rust's `saturating_sub` on unsigned integers. */
  function SatSub(a: nat, b: nat): nat {
    if a < b then 0 else a - b
  }

  /** `u16::saturating_add`. */
  function SatAdd16(a: nat, b: nat): nat {
    Min(a + b, 0xffff)
  }

  function Abs(x: int): nat {
    if x < 0 then -x else x
  }

  function Bit(b: bool): nat { if b then 1 else 0 }

  /** The place of cell (row, col) in cells listed row by row. */
  function CellIndex(row: nat, width: nat, col: nat): nat {
    row * width + col
  }

  lemma MulMonotone(a: int, b: int, d: nat)
    requires a <= b
    ensures a * d <= b * d
  {
  }

  /** Quotient and remainder are the only way to write `n` as `q * d + r`. */
  lemma DivModUnique(n: int, d: nat, q: int, r: nat)
    requires d > 0 && r < d && n == q * d + r
    ensures n / d == q && n % d == r
  {
    var p := n / d;
    assert n == p * d + n % d;
    if p < q {
      MulMonotone(p + 1, q, d);
    } else if q < p {
      MulMonotone(q + 1, p, d);
    }
  }
}
