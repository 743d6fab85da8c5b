/** Decimal notation of naturals, as digit values. */
module Decimal {

  type Digit = d: nat | d < 10

  function Digits(n: nat): (r: seq<Digit>)
    ensures r != []
  {
    if n < 10 then [n] else Digits(n / 10) + [n % 10]
  }

  /** The number a digit string denotes; leading zeros are fine. */
  function Value(ds: seq<Digit>): nat {
    if ds == [] then 0 else Value(ds[..|ds| - 1]) * 10 + ds[|ds| - 1]
  }

  lemma {:induction false} ValueOfDigits(n: nat)
    ensures Value(Digits(n)) == n
  {
    if n < 10 {
      assert [n][..0] == [];
    } else {
      ValueOfDigits(n / 10);
      assert (Digits(n / 10) + [n % 10])[..|Digits(n / 10)|] == Digits(n / 10);
    }
  }

  function Chars(ds: seq<Digit>): string {
    seq(|ds|, i requires 0 <= i < |ds| => ('0' as int + ds[i]) as char)
  }

  function Show(n: nat): string {
    Chars(Digits(n))
  }
}
