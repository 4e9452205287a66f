/** Decimal numbers as the server prints them, and its computation of their width. */
module Numbers {
  import opened Bytes

  function Min(a: int, b: int): int {
    if a <= b then a else b
  }

  /** The range of a signed 64-bit `off_t`. */
  const OFF_T := 0x1_0000_0000_0000_0000

  const LIMIT := 1_000_000_000_000_000_000

  /** What a signed 64-bit addition or multiplication leaves of a result. */
  function Wrap(n: int): (r: int)
    ensures -OFF_T / 2 <= r < OFF_T / 2
    ensures -OFF_T / 2 <= n < OFF_T / 2 ==> r == n
  {
    (n + OFF_T / 2) % OFF_T - OFF_T / 2
  }

  /** All of a number that fits is kept, and of others what is left when a turn around the range has been taken off. */
  lemma WrapIs(n: int)
    ensures -0x8000_0000_0000_0000 <= n < 0x8000_0000_0000_0000 ==> Wrap(n) == n
    ensures Wrap(n + 0x1_0000_0000_0000_0000) == Wrap(n)
  {
  }

  function Decimal(n: nat): (r: bytes)
    ensures r != [] && forall i :: 0 <= i < |r| ==> IsDigit(r[i])
  {
    if n < 10 then [0x30 + n] else Decimal(n / 10) + [0x30 + n % 10]
  }

  /** The value of decimal digits. */
  function NumberOf(digits: bytes): int {
    if digits == [] then 0 else 10 * NumberOf(digits[..|digits| - 1]) + (digits[|digits| - 1] - '0' as int)
  }

  /** A printed number has its value. */
  lemma {:induction false} NumberOfDecimal(n: nat)
    ensures NumberOf(Decimal(n)) == n
  {
    if n < 10 {
      assert Decimal(n)[..0] == [];
    } else {
      NumberOfDecimal(n / 10);
      assert Decimal(n)[..|Decimal(n)| - 1] == Decimal(n / 10);
    }
  }

  function Power10(k: nat): (p: nat)
    ensures p >= 1
  {
    if k == 0 then 1 else 10 * Power10(k - 1)
  }

  /** A number has `k` digits if and only if it is below the `k`-th power of ten and not below the one before. */
  lemma {:induction false} DecimalWidth(n: nat, k: nat)
    requires k >= 1
    ensures |Decimal(n)| <= k <==> n < Power10(k)
  {
    if k == 1 {
      assert Power10(1) == 10 * Power10(0);
    } else if n >= 10 {
      DecimalWidth(n / 10, k - 1);
      assert n / 10 < Power10(k - 1) <==> n < 10 * Power10(k - 1);
    } else {
      assert Power10(k) == 10 * Power10(k - 1) >= 10;
    }
  }

  /** The width that is counted for a number: its own, but never more than 18. */
  function Counted(n: nat): nat {
    if n < LIMIT then |Decimal(n)| else 18
  }

  /** The loop that counts digits; it gives up when the next bound overflows. */
  method Length(number: int) returns (len: nat)
    requires -OFF_T / 2 < number < OFF_T / 2
    ensures number >= 0 ==> len == Counted(number) && (len == |Decimal(number)| <==> number < LIMIT)
    ensures number < 0 && -number < LIMIT ==> len == 1 + |Decimal(-number)|
  {
    hide Decimal, Power10, Wrap;
    var sign, m := 0, number;
    if number < 0 {
      sign := 1;
      m := Wrap(number * -1);
    }
    len := sign + 1;
    var n := 9;
    Powers();
    while n < m
      invariant sign < len <= sign + 18 && n == Power10(len - sign) - 1
      invariant len - sign > 1 ==> Power10(len - sign - 1) <= m
      decreases sign + 18 - len
    {
      Widths(len - sign);
      var tmp := Wrap(n * 10 + 9);
      if tmp < n {
        break;
      }
      n := tmp;
      len := len + 1;
    }
    CountedDigits(m, len - sign);
  }

  /** The count the loop stops with, between two powers of ten or at 18, is the width below the limit and only there. */
  lemma CountedDigits(m: nat, k: nat)
    requires 1 <= k <= 18
    requires k > 1 ==> Power10(k - 1) <= m
    requires m < Power10(k) || k == 18
    ensures |Decimal(m)| == k <==> m < LIMIT
    ensures m >= LIMIT ==> k == 18
  {
    hide Decimal, Power10;
    Powers();
    Monotonic(k, 18);
    DecimalWidth(m, k);
    DecimalWidth(m, 18);
    if k > 1 {
      DecimalWidth(m, k - 1);
    }
  }

  lemma Powers()
    ensures Power10(1) == 10 && Power10(18) == LIMIT
  {
    assert Power10(6) == 1_000_000;
    assert Power10(12) == 1_000_000 * Power10(6);
    assert Power10(18) == 1_000_000 * Power10(12);
  }

  /** Up to 17 digits the next bound is exact; after 18 it wraps to a negative number. */
  lemma Widths(k: nat)
    requires 1 <= k <= 18
    ensures Power10(k + 1) == 10 * Power10(k)
    ensures k < 18 ==> Power10(k + 1) <= LIMIT
    ensures k == 18 ==> Wrap((Power10(k) - 1) * 10 + 9) < 0
  {
    Powers();
    if k < 18 {
      Monotonic(k + 1, 18);
    }
  }

  lemma {:induction false} Monotonic(i: nat, j: nat)
    requires i <= j
    ensures Power10(i) <= Power10(j)
    decreases j - i
  {
    if i < j {
      Monotonic(i + 1, j);
    }
  }
}
