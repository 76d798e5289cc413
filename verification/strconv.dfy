/** Decimal conversion of naturals, as `strconv.Itoa` / `strconv.Atoi` do for them. */
module Strconv {
  import opened Base

  predicate IsDigit(b: Byte) {
    '0' as int <= b <= '9' as int
  }

  predicate AllDigits(s: Bytes) {
    forall i :: 0 <= i < |s| ==> IsDigit(s[i])
  }

  /** The decimal representation of `n`, without sign or leading zeros. */
  function Itoa(n: nat): (s: Bytes)
    ensures 0 < |s| && AllDigits(s)
    ensures s[0] == '0' as int ==> n == 0
  {
    if n < 10 then ['0' as int + n]
    else Itoa(n / 10) + ['0' as int + n % 10]
  }

  /** The value of a string of decimal digits. */
  function Atoi(s: Bytes): nat
    requires AllDigits(s)
  {
    if |s| == 0 then 0
    else Atoi(s[..|s| - 1]) * 10 + (s[|s| - 1] - '0' as int)
  }

  /** Parsing the printed form of `n` gives back `n`. */
  lemma {:induction false} AtoiItoa(n: nat)
    ensures Atoi(Itoa(n)) == n
  {
    if n >= 10 {
      var s := Itoa(n);
      assert s[..|s| - 1] == Itoa(n / 10);
      AtoiItoa(n / 10);
    }
  }

  /** Distinct naturals print differently. */
  lemma ItoaInjective(a: nat, b: nat)
    ensures Itoa(a) == Itoa(b) ==> a == b
  {
    AtoiItoa(a);
    AtoiItoa(b);
  }
}
