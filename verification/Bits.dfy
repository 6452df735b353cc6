/** Bitwise operations on natural numbers, digit by digit in base two. */
module Bits {
  import opened NumberTheory

  function BitXor(a: nat, b: nat): nat
    decreases a + b
  {
    if a == 0 && b == 0 then 0 else 2 * BitXor(a / 2, b / 2) + (a % 2 + b % 2) % 2
  }

  function BitOr(a: nat, b: nat): nat
    decreases a + b
  {
    if a == 0 && b == 0 then 0
    else 2 * BitOr(a / 2, b / 2) + (if a % 2 == 1 || b % 2 == 1 then 1 else 0)
  }

  function BitAnd(a: nat, b: nat): nat
    decreases a + b
  {
    if a == 0 && b == 0 then 0
    else 2 * BitAnd(a / 2, b / 2) + (if a % 2 == 1 && b % 2 == 1 then 1 else 0)
  }

  /** The k-th binary digit. */
  function Digit(a: nat, k: nat): nat {
    if k == 0 then a % 2 else Digit(a / 2, k - 1)
  }

  lemma HalvesFirst(a: nat, m: nat)
    requires m > 0
    ensures a / 2 / m == a / (2 * m)
  {
    var h, q := a / 2, a / 2 / m;
    assert h == m * q + h % m;
    assert m * q * 2 == 2 * m * q;
    QuotientUnique(a, 2 * m, q, 2 * (h % m) + a % 2);
  }

  /** It is the last digit of the quotient by 2^k. */
  lemma {:induction false} DigitOfQuotient(a: nat, k: nat)
    ensures Pow(2, k) > 0 && Digit(a, k) == a / Pow(2, k) % 2
  {
    PowPositive(2, k);
    if k == 0 {
    } else {
      DigitOfQuotient(a / 2, k - 1);
      HalvesFirst(a, Pow(2, k - 1));
    }
  }

  lemma {:induction false} ZeroDigits(k: nat)
    ensures Digit(0, k) == 0
  {
    if k == 0 {
    } else {
      ZeroDigits(k - 1);
    }
  }

  /** The operations work on every digit for itself. */
  lemma {:induction false} XorDigits(a: nat, b: nat, k: nat)
    ensures Digit(BitXor(a, b), k) == (Digit(a, k) + Digit(b, k)) % 2
  {
    if a == 0 && b == 0 {
      ZeroDigits(k);
    } else {
      var h, low := BitXor(a / 2, b / 2), (a % 2 + b % 2) % 2;
      assert BitXor(a, b) == 2 * h + low;
      if k > 0 {
        XorDigits(a / 2, b / 2, k - 1);
        assert (2 * h + low) / 2 == h;
      }
    }
  }

  lemma {:induction false} OrDigits(a: nat, b: nat, k: nat)
    ensures Digit(BitOr(a, b), k) == if Digit(a, k) == 1 || Digit(b, k) == 1 then 1 else 0
  {
    if a == 0 && b == 0 {
      ZeroDigits(k);
    } else if k == 0 {
    } else {
      OrDigits(a / 2, b / 2, k - 1);
      assert BitOr(a, b) / 2 == BitOr(a / 2, b / 2);
    }
  }

  lemma {:induction false} AndDigits(a: nat, b: nat, k: nat)
    ensures Digit(BitAnd(a, b), k) == if Digit(a, k) == 1 && Digit(b, k) == 1 then 1 else 0
  {
    if a == 0 && b == 0 {
      ZeroDigits(k);
    } else if k == 0 {
    } else {
      AndDigits(a / 2, b / 2, k - 1);
      assert BitAnd(a, b) / 2 == BitAnd(a / 2, b / 2);
    }
  }

  lemma XorDigit(x: nat, y: nat)
    requires x < 2 && y < 2
    ensures ((x + y) % 2 + y) % 2 == x
  {
  }

  lemma {:induction false} XorInvolution(a: nat, b: nat)
    ensures BitXor(BitXor(a, b), b) == a
    decreases a + b
  {
    if a == 0 && b == 0 {
    } else {
      XorInvolution(a / 2, b / 2);
      var h, x := BitXor(a / 2, b / 2), BitXor(a, b);
      XorDigit(a % 2, b % 2);
      assert x == 2 * h + (a % 2 + b % 2) % 2;
      assert x / 2 == h && x % 2 == (a % 2 + b % 2) % 2;
      assert BitXor(x, b) == 2 * BitXor(x / 2, b / 2) + (x % 2 + b % 2) % 2;
    }
  }

  lemma {:induction false} XorBound(a: nat, b: nat, w: nat)
    requires a < Pow(2, w) && b < Pow(2, w)
    ensures BitXor(a, b) < Pow(2, w)
  {
    if w == 0 {
    } else {
      XorBound(a / 2, b / 2, w - 1);
    }
  }

  lemma {:induction false} OrZero(a: nat, b: nat)
    ensures BitOr(a, b) == 0 <==> a == 0 && b == 0
    decreases a + b
  {
    if a == 0 && b == 0 {
    } else {
      OrZero(a / 2, b / 2);
    }
  }

  lemma {:induction false} XorZero(a: nat, b: nat)
    ensures BitXor(a, b) == 0 <==> a == b
    decreases a + b
  {
    if a == 0 && b == 0 {
    } else {
      XorZero(a / 2, b / 2);
    }
  }

  lemma {:induction false} AndZero(a: nat)
    ensures BitAnd(a, 0) == 0
  {
    if a == 0 {
    } else {
      AndZero(a / 2);
    }
  }

  lemma HalveMod(a: nat, m: nat)
    requires m > 0
    ensures a % (2 * m) == 2 * ((a / 2) % m) + a % 2
  {
    var h := a / 2;
    var q, r := h / m, h % m;
    assert h == m * q + r;
    assert m * q * 2 == (2 * m) * q;
    var x := 2 * r + a % 2;
    assert a - x == (2 * m) * q;
    ResidueUnique(a, x, 2 * m);
  }

  /** Masking with the low w ones keeps the remainder modulo 2^w. */
  lemma {:induction false} AndMask(a: nat, w: nat)
    ensures Pow(2, w) > 0 && BitAnd(a, Pow(2, w) - 1) == a % Pow(2, w)
    decreases w
  {
    if w == 0 {
      AndZero(a);
    } else {
      AndMask(a / 2, w - 1);
      var m := Pow(2, w - 1);
      assert (2 * m - 1) / 2 == m - 1;
      HalveMod(a, m);
    }
  }

  /** Or adds numbers whose ones do not overlap. */
  lemma {:induction false} OrDisjoint(a: nat, b: nat, w: nat)
    requires b < Pow(2, w)
    ensures BitOr(a * Pow(2, w), b) == a * Pow(2, w) + b
    decreases w, a
  {
    if w == 0 {
      if a > 0 {
        OrDisjoint(a / 2, 0, 0);
        assert a * Pow(2, 0) == a && a / 2 * Pow(2, 0) == a / 2;
      }
    } else {
      var m := Pow(2, w - 1);
      assert a * (2 * m) == 2 * (a * m);
      OrDisjoint(a, b / 2, w - 1);
    }
  }
}
