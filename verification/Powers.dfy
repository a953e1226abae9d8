/** Powers of two, as naturals for shift counts and as reals for exact values. */
module Powers {

  function Exp2(n: nat): (r: nat)
    ensures r >= 1
  {
    if n == 0 then 1 else 2 * Exp2(n - 1)
  }

  /** 2^e for any integer exponent. */
  function Pow2(e: int): (r: real)
    ensures r > 0.0
    decreases if e < 0 then -e else e
  {
    if e == 0 then 1.0 else if e > 0 then 2.0 * Pow2(e - 1) else Pow2(e + 1) / 2.0
  }

  lemma {:induction false} Pow2IsExp2(n: nat)
    ensures Pow2(n) == Exp2(n) as real
  {
    if n > 0 {
      Pow2IsExp2(n - 1);
    }
  }

  lemma {:induction false} Exp2Add(a: nat, b: nat)
    ensures Exp2(a + b) == Exp2(a) * Exp2(b)
  {
    hide *;
    if a == 0 {
      Exp2Zero();
    } else {
      Exp2Add(a - 1, b);
      Exp2Double(a - 1);
      Exp2Double(a - 1 + b);
      DoubleFactor(Exp2(a - 1), Exp2(b));
    }
  }

  lemma DoubleFactor(x: int, y: int)
    ensures 2 * x * y == 2 * (x * y)
  {
  }

  lemma {:induction false} Exp2Mono(a: nat, b: nat)
    requires a <= b
    ensures Exp2(a) <= Exp2(b)
    ensures a < b ==> 2 * Exp2(a) <= Exp2(b)
    decreases b
  {
    if a < b {
      Exp2Mono(a, b - 1);
    }
  }

  lemma Pow2Step(e: int)
    ensures Pow2(e + 1) == 2.0 * Pow2(e)
  {
  }

  lemma {:induction false} Pow2Add(a: int, b: int)
    ensures Pow2(a + b) == Pow2(a) * Pow2(b)
    decreases if b < 0 then -b else b
  {
    hide *;
    if b == 0 {
      Pow2Zero();
    } else if b > 0 {
      Pow2Add(a, b - 1);
      Pow2AddStep(a, b - 1);
    } else {
      Pow2Add(a, b + 1);
      Pow2AddStep(a, b);
    }
  }

  lemma {:induction false} Pow2AtLeast1(n: nat)
    ensures Pow2(n) >= 1.0
  {
    if n > 0 {
      Pow2AtLeast1(n - 1);
    }
  }

  lemma {:induction false} Pow2Below1(e: int)
    requires e < 0
    ensures Pow2(e) <= 0.5
    decreases -e
  {
    if e < -1 {
      Pow2Below1(e + 1);
    }
  }

  lemma Pow2Inverse(x: real, n: int)
    requires n >= 0
    ensures x * Pow2(-n) == x / Exp2(n) as real
  {
    hide *;
    Pow2Add(n, -n);
    Pow2Zero();
    Pow2IsExp2(n);
    Inverse(x, Pow2(-n), Exp2(n) as real);
  }

  lemma Inverse(x: real, r: real, s: real)
    requires s * r == 1.0 && s != 0.0
    ensures x * r == x / s
  {
    assert x == x * r * s;
  }

  lemma Exp2Zero()
    ensures Exp2(0) == 1
  {
  }

  lemma Exp2Double(n: nat)
    ensures Exp2(n + 1) == 2 * Exp2(n)
  {
  }

  lemma Pow2Zero()
    ensures Pow2(0) == 1.0
  {
  }

  lemma Pow2AddStep(a: int, b: int)
    ensures Pow2(a + b + 1) == Pow2(a) * Pow2(b + 1) <==> Pow2(a + b) == Pow2(a) * Pow2(b)
  {
    hide *;
    Pow2Step(a + b);
    Pow2Step(b);
  }

  /** The powers of two that appear as constants in the code. */
  lemma Exp2Constants()
    ensures Exp2(7) == 0x80 && Exp2(8) == 0x100 && Exp2(10) == 0x400 && Exp2(11) == 0x800
    ensures Exp2(23) == 0x80_0000 && Exp2(24) == 0x100_0000 && Exp2(29) == 0x2000_0000
    ensures Exp2(30) == 0x4000_0000 && Exp2(31) == 0x8000_0000 && Exp2(32) == 0x1_0000_0000
    ensures Exp2(52) == 0x10_0000_0000_0000 && Exp2(53) == 0x20_0000_0000_0000
    ensures Exp2(61) == 0x2000_0000_0000_0000 && Exp2(62) == 0x4000_0000_0000_0000
    ensures Exp2(63) == 0x8000_0000_0000_0000 && Exp2(64) == 0x1_0000_0000_0000_0000
  {
    assert Exp2(7) == 0x80;
    assert Exp2(16) == 0x1_0000;
    Exp2Add(16, 16);
    Exp2Add(32, 32);
    Exp2Add(32, 20);
    Exp2Add(32, 21);
    Exp2Add(32, 29);
    Exp2Add(32, 30);
    Exp2Add(32, 31);
  }
}
