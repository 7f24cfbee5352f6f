/** Decimal numerals, as the C server prints them into small fixed buffers. */
module Decimal {

  predicate IsDigit(c: char) {
    '0' <= c <= '9'
  }

  function DigitOf(n: nat): (c: char)
    requires n < 10
    ensures IsDigit(c) && c as int - 48 == n
  {
    (48 + n) as char
  }

  /** The numeral of `n`, without leading zeros. */
  function Dec(n: nat): (s: string)
    ensures s != [] && forall c :: c in s ==> IsDigit(c)
  {
    if n < 10 then [DigitOf(n)] else Dec(n / 10) + [DigitOf(n % 10)]
  }

  /** The number a string of digits denotes. */
  function ReadDec(s: string): (n: int) {
    if s == [] then 0 else 10 * ReadDec(s[..|s| - 1]) + (s[|s| - 1] as int - 48)
  }

  lemma {:induction false} DecRoundTrip(n: nat)
    ensures ReadDec(Dec(n)) == n
  {
    if n >= 10 {
      DecRoundTrip(n / 10);
      var s := Dec(n);
      assert s[..|s| - 1] == Dec(n / 10);
    } else {
      assert Dec(n)[..0] == [];
    }
  }

  lemma {:induction false} DecLength(n: nat, k: nat)
    requires n < Pow10(k) && k > 0
    ensures |Dec(n)| <= k
  {
    if n >= 10 {
      assert k > 1 by {
        assert Pow10(1) == 10;
      }
      DecLength(n / 10, k - 1);
    }
  }

  function Pow10(k: nat): (p: nat)
    ensures p > 0
  {
    if k == 0 then 1 else 10 * Pow10(k - 1)
  }

  /** `uint_to_str` for a 32-bit value: digits are produced in reverse and then turned round. */
  method UintToStr(val: nat, buf: array<char>) returns (n: nat)
    requires val < 0x1_0000_0000 && buf.Length == 12
    modifies buf
    ensures n <= 10 && buf[..n] == Dec(val)
  {
    if val == 0 {
      buf[0] := '0';
      assert buf[..1] == Dec(0);
      return 1;
    }
    assert Pow10(10) == 10_000_000_000 by {
      assert Pow10(5) == 100000;
    }
    DecLength(val, 10);
    ghost var text := Dec(val);
    var tmp := new char[12](_ => '0');
    var v: nat := val;
    n := 0;
    while v > 0
      invariant n <= |text| <= 10
      invariant v > 0 ==> text[..|text| - n] == Dec(v)
      invariant v == 0 ==> n == |text|
      invariant forall i :: 0 <= i < n ==> tmp[i] == text[|text| - 1 - i]
    {
      assert text[|text| - n - 1] == Dec(v)[|Dec(v)| - 1] == DigitOf(v % 10);
      tmp[n] := DigitOf(v % 10);
      v := v / 10;
      n := n + 1;
      assert v > 0 ==> text[..|text| - n] == text[..|text| - n + 1][..|text| - n];
    }
    for i := 0 to n
      invariant forall k :: 0 <= k < n ==> tmp[k] == text[n - 1 - k]
      invariant forall k :: 0 <= k < i ==> buf[k] == text[k]
    {
      buf[i] := tmp[n - 1 - i];
    }
  }
}
