/**
 * The multiplicative order of x modulo the generator is 32767: a register that holds a single
 * bit returns to it after n shifts iff n is a multiple of 32767. So does every other content but
 * two, 0 and 0xF80F, which never change (x+1 divides the generator).
 */
module Order {
  import opened Bits
  import opened Checksum

  /** The polynomial 1: its coefficient sits in the top bit of the reflected register. */
  const ONE: bv16 := 0x8000

  const ORDER: nat := 7 * 31 * 151

  function Term(u: bv16, mask: bv16, v: bv16): bv16 {
    if u & mask != 0 then v else 0
  }

  function Shift4(v: bv16): bv16 {
    Shift(Shift(Shift(Shift(v))))
  }

  /** The part of a product that four consecutive coefficients of `u` contribute. */
  function Mul4(u: bv16, mask: bv16, v: bv16): bv16 {
    Plus(Plus(Term(u, mask, v), Term(u, mask >> 1, Shift(v))),
         Plus(Term(u, mask >> 2, Shift(Shift(v))), Term(u, mask >> 3, Shift(Shift(Shift(v))))))
  }

  /** The product of two polynomials modulo the generator. */
  function Mul(u: bv16, v: bv16): bv16 {
    Plus(Plus(Mul4(u, 0x8000, v), Mul4(u, 0x0800, Shift4(v))),
         Plus(Mul4(u, 0x0080, Shift4(Shift4(v))), Mul4(u, 0x0008, Shift4(Shift4(Shift4(v))))))
  }

  lemma MulOne(u: bv16)
    ensures Mul(u, ONE) == u
  {
    assert Shift4(0x8000) == 0x0800 && Shift4(0x0800) == 0x0080 && Shift4(0x0080) == 0x0008;
    MulUnits(u, 0x8000, 0xF000);
    MulUnits(u, 0x0800, 0x0F00);
    MulUnits(u, 0x0080, 0x00F0);
    MulUnits(u, 0x0008, 0x000F);
    Regroup(u);
    hide Mul4, Shift4, Plus;
  }

  lemma Regroup(u: bv16)
    ensures Plus(Plus(u & 0xF000, u & 0x0F00), Plus(u & 0x00F0, u & 0x000F)) == u
  {}

  lemma MulUnits(u: bv16, mask: bv16, group: bv16)
    requires (mask == 0x8000 && group == 0xF000) || (mask == 0x0800 && group == 0x0F00)
          || (mask == 0x0080 && group == 0x00F0) || (mask == 0x0008 && group == 0x000F)
    ensures Mul4(u, mask, mask) == u & group
  {}

  /** x^n */
  function Power(n: nat): bv16 {
    ShiftN(ONE, n)
  }

  lemma ShiftMul4(u: bv16, mask: bv16, v: bv16)
    ensures Shift(Mul4(u, mask, v)) == Mul4(u, mask, Shift(v))
  {
    hide Plus, Shift;
    ShiftZero(0);
    var a, b := Term(u, mask, v), Term(u, mask >> 1, Shift(v));
    var c, d := Term(u, mask >> 2, Shift(Shift(v))), Term(u, mask >> 3, Shift(Shift(Shift(v))));
    ShiftPlus(a, b);
    ShiftPlus(c, d);
    ShiftPlus(Plus(a, b), Plus(c, d));
  }

  lemma ShiftMul(u: bv16, v: bv16)
    ensures Shift(Mul(u, v)) == Mul(u, Shift(v))
  {
    hide Plus, Shift, Mul4;
    var v1 := Shift4(v);
    var v2 := Shift4(v1);
    var v3 := Shift4(v2);
    ShiftMul4(u, 0x8000, v);
    ShiftMul4(u, 0x0800, v1);
    ShiftMul4(u, 0x0080, v2);
    ShiftMul4(u, 0x0008, v3);
    var a, b, c, d := Mul4(u, 0x8000, v), Mul4(u, 0x0800, v1), Mul4(u, 0x0080, v2), Mul4(u, 0x0008, v3);
    ShiftPlus(a, b);
    ShiftPlus(c, d);
    ShiftPlus(Plus(a, b), Plus(c, d));
  }

  lemma {:induction false} ShiftNMul(u: bv16, v: bv16, n: nat)
    ensures ShiftN(Mul(u, v), n) == Mul(u, ShiftN(v, n))
    decreases n
  {
    hide Mul, Shift;
    if n > 0 {
      ShiftMul(u, v);
      ShiftNMul(u, Shift(v), n - 1);
    }
  }

  /** Shifting n times is multiplication by x^n. */
  lemma ShiftNIsMul(r: bv16, n: nat)
    ensures ShiftN(r, n) == Mul(r, Power(n))
  {
    hide Mul;
    MulOne(r);
    ShiftNMul(r, ONE, n);
  }

  lemma PowerAdd(m: nat, n: nat)
    ensures Power(m + n) == Mul(Power(m), Power(n))
  {
    hide Mul, ShiftN;
    ShiftNAdd(ONE, m, n);
    ShiftNIsMul(Power(m), n);
  }

  lemma TermPlus(u: bv16, mask: bv16, v: bv16, w: bv16)
    ensures Term(u, mask, Plus(v, w)) == Plus(Term(u, mask, v), Term(u, mask, w))
  {}

  lemma Mul4Plus(u: bv16, mask: bv16, v: bv16, w: bv16)
    ensures Mul4(u, mask, Plus(v, w)) == Plus(Mul4(u, mask, v), Mul4(u, mask, w))
  {
    hide Plus, Shift, Term;
    var v1, w1 := Shift(v), Shift(w);
    var v2, w2 := Shift(v1), Shift(w1);
    ShiftPlus(v, w);
    ShiftPlus(v1, w1);
    ShiftPlus(v2, w2);
    TermPlus(u, mask, v, w);
    TermPlus(u, mask >> 1, v1, w1);
    TermPlus(u, mask >> 2, v2, w2);
    TermPlus(u, mask >> 3, Shift(v2), Shift(w2));
    PlusSwap(Term(u, mask, v), Term(u, mask, w), Term(u, mask >> 1, v1), Term(u, mask >> 1, w1));
    PlusSwap(Term(u, mask >> 2, v2), Term(u, mask >> 2, w2),
             Term(u, mask >> 3, Shift(v2)), Term(u, mask >> 3, Shift(w2)));
    PlusSwap(Plus(Term(u, mask, v), Term(u, mask >> 1, v1)), Plus(Term(u, mask, w), Term(u, mask >> 1, w1)),
             Plus(Term(u, mask >> 2, v2), Term(u, mask >> 3, Shift(v2))),
             Plus(Term(u, mask >> 2, w2), Term(u, mask >> 3, Shift(w2))));
  }

  lemma Shift4Plus(v: bv16, w: bv16)
    ensures Shift4(Plus(v, w)) == Plus(Shift4(v), Shift4(w))
  {
    hide Plus, Shift;
    ShiftPlus(v, w);
    ShiftPlus(Shift(v), Shift(w));
    ShiftPlus(Shift(Shift(v)), Shift(Shift(w)));
    ShiftPlus(Shift(Shift(Shift(v))), Shift(Shift(Shift(w))));
  }

  lemma MulPlus(u: bv16, v: bv16, w: bv16)
    ensures Mul(u, Plus(v, w)) == Plus(Mul(u, v), Mul(u, w))
  {
    hide Plus, Shift4, Mul4;
    var v1, w1 := Shift4(v), Shift4(w);
    var v2, w2 := Shift4(v1), Shift4(w1);
    var v3, w3 := Shift4(v2), Shift4(w2);
    Shift4Plus(v, w);
    Shift4Plus(v1, w1);
    Shift4Plus(v2, w2);
    Mul4Plus(u, 0x8000, v, w);
    Mul4Plus(u, 0x0800, v1, w1);
    Mul4Plus(u, 0x0080, v2, w2);
    Mul4Plus(u, 0x0008, v3, w3);
    PlusSwap(Mul4(u, 0x8000, v), Mul4(u, 0x8000, w), Mul4(u, 0x0800, v1), Mul4(u, 0x0800, w1));
    PlusSwap(Mul4(u, 0x0080, v2), Mul4(u, 0x0080, w2), Mul4(u, 0x0008, v3), Mul4(u, 0x0008, w3));
    PlusSwap(Plus(Mul4(u, 0x8000, v), Mul4(u, 0x0800, v1)), Plus(Mul4(u, 0x8000, w), Mul4(u, 0x0800, w1)),
             Plus(Mul4(u, 0x0080, v2), Mul4(u, 0x0008, v3)), Plus(Mul4(u, 0x0080, w2), Mul4(u, 0x0008, w3)));
  }

  /** Multiplications commute with each other. */
  lemma MulSwap(u: bv16, v: bv16, w: bv16)
    ensures Mul(u, Mul(v, w)) == Mul(v, Mul(u, w))
  {
    hide Plus, Shift4, Mul4, Mul;
    var w1 := Shift4(w);
    var w2 := Shift4(w1);
    var w3 := Shift4(w2);
    Shift4Mul(v, w);
    Shift4Mul(v, w1);
    Shift4Mul(v, w2);
    Mul4Swap(u, 0x8000, v, w);
    Mul4Swap(u, 0x0800, v, w1);
    Mul4Swap(u, 0x0080, v, w2);
    Mul4Swap(u, 0x0008, v, w3);
    var a, b, c, d := Mul4(u, 0x8000, w), Mul4(u, 0x0800, w1), Mul4(u, 0x0080, w2), Mul4(u, 0x0008, w3);
    MulPlus(v, a, b);
    MulPlus(v, c, d);
    MulPlus(v, Plus(a, b), Plus(c, d));
    MulIs(u, w);
    MulIs(u, Mul(v, w));
  }

  lemma MulIs(u: bv16, v: bv16)
    ensures Mul(u, v)
         == Plus(Plus(Mul4(u, 0x8000, v), Mul4(u, 0x0800, Shift4(v))),
                 Plus(Mul4(u, 0x0080, Shift4(Shift4(v))), Mul4(u, 0x0008, Shift4(Shift4(Shift4(v))))))
  {
    hide Plus, Shift4, Mul4;
  }

  lemma Shift4Mul(u: bv16, v: bv16)
    ensures Shift4(Mul(u, v)) == Mul(u, Shift4(v))
  {
    hide Mul, Shift;
    ShiftMul(u, v);
    ShiftMul(u, Shift(v));
    ShiftMul(u, Shift(Shift(v)));
    ShiftMul(u, Shift(Shift(Shift(v))));
  }

  lemma Mul4Swap(u: bv16, mask: bv16, v: bv16, w: bv16)
    ensures Mul4(u, mask, Mul(v, w)) == Mul(v, Mul4(u, mask, w))
  {
    hide Plus, Shift, Mul, Term;
    var w1 := Shift(w);
    var w2 := Shift(w1);
    ShiftMul(v, w);
    ShiftMul(v, w1);
    ShiftMul(v, w2);
    var a, b := Term(u, mask, w), Term(u, mask >> 1, w1);
    var c, d := Term(u, mask >> 2, w2), Term(u, mask >> 3, Shift(w2));
    TermSwap(u, mask, v, w);
    TermSwap(u, mask >> 1, v, w1);
    TermSwap(u, mask >> 2, v, w2);
    TermSwap(u, mask >> 3, v, Shift(w2));
    MulPlus(v, a, b);
    MulPlus(v, c, d);
    MulPlus(v, Plus(a, b), Plus(c, d));
  }

  lemma TermSwap(u: bv16, mask: bv16, v: bv16, w: bv16)
    ensures Term(u, mask, Mul(v, w)) == Mul(v, Term(u, mask, w))
  {
    MulZero(v);
    hide Mul;
  }

  lemma MulZero(u: bv16)
    ensures Mul(u, 0) == 0
  {
    hide Mul;
    MulPlus(u, 0, 0);
    PlusGroup(Mul(u, 0), Mul(u, 0), 0);
    PlusGroup(0, 0, 0);
  }

  // ---- the powers that settle the order, by repeated squaring ----

  lemma SmallPowers()
    ensures Power(1) == 0x4000 && Power(8) == 0x0080 && Power(16) == 0x8408
    ensures Power(32) == 0x0CEC && Power(64) == 0x861D && Power(128) == 0x3F75
  {
    assert Power(1) == 0x4000 && Power(8) == 0x0080;
    hide Power;
    PowerAdd(8, 8);
    PowerAdd(16, 16);
    PowerAdd(32, 32);
    PowerAdd(64, 64);
  }

  lemma MiddlePowers()
    ensures Power(512) == 0x3FC8 && Power(1024) == 0x236C && Power(4096) == 0x7955
  {
    SmallPowers();
    hide Power;
    PowerAdd(128, 128);
    PowerAdd(256, 256);
    PowerAdd(512, 512);
    PowerAdd(1024, 1024);
    PowerAdd(2048, 2048);
  }

  lemma LargePower()
    ensures Power(32768) == Power(1)
  {
    SmallPowers();
    MiddlePowers();
    hide Power;
    PowerAdd(4096, 4096);
    PowerAdd(8192, 8192);
    PowerAdd(16384, 16384);
  }

  /** x to the order divided by each of its prime factors. */
  lemma ProperDivisors()
    ensures Power(31 * 151) == 0x4234 && Power(7 * 151) == 0xF54F && Power(7 * 31) == 0xC712
  {
    SmallPowers();
    MiddlePowers();
    hide Power;
    PowerAdd(8, 1);
    PowerAdd(64, 9);
    PowerAdd(512, 73);
    PowerAdd(4096, 585);
    PowerAdd(32, 1);
    PowerAdd(1024, 33);
    PowerAdd(16, 9);
    PowerAdd(64, 25);
    PowerAdd(128, 89);
  }

  // ---- periods ----

  /** The two register contents that every shift leaves as they are. */
  predicate IsFixed(r: bv16) {
    r == 0 || r == 0xF80F
  }

  predicate Recurs(r: bv16, n: nat) {
    ShiftN(r, n) == r
  }

  lemma FixedRecurs(r: bv16, n: nat)
    requires IsFixed(r)
    ensures Recurs(r, n)
    decreases n
  {
    if n > 0 {
      assert Shift(0) == 0 && Shift(0xF80F) == 0xF80F;
      hide Shift;
      FixedRecurs(r, n - 1);
    }
  }

  lemma RecursAdd(r: bv16, m: nat, n: nat)
    requires Recurs(r, m)
    ensures Recurs(r, m + n) <==> Recurs(r, n)
  {
    ShiftNAdd(r, m, n);
  }

  lemma RecursMultiple(r: bv16, n: nat, k: nat)
    requires Recurs(r, n)
    ensures Recurs(r, k * n)
    decreases k
  {
    if k > 0 {
      hide Recurs;
      RecursMultiple(r, n, k - 1);
      RecursAdd(r, n, (k - 1) * n);
      assert k * n == n + (k - 1) * n;
    }
  }

  lemma RecursRemainder(r: bv16, m: nat, k: nat, n: nat)
    requires Recurs(r, m)
    ensures Recurs(r, k * m + n) <==> Recurs(r, n)
  {
    hide Recurs;
    RecursMultiple(r, m, k);
    RecursAdd(r, k * m, n);
  }

  lemma OrderIsPeriod()
    ensures Power(ORDER) == ONE
  {
    LargePower();
    ShiftNAdd(ONE, ORDER, 1);
    hide ShiftN, Shift;
    var p := ShiftN(ONE, ORDER);
    assert Shift(p) == Shift(ONE) by { OneShift(p); OneShift(ONE); }
    ShiftInjective(p, ONE);
  }

  lemma OneShift(r: bv16)
    ensures ShiftN(r, 1) == Shift(r)
  {}

  lemma ShiftInjective(a: bv16, b: bv16)
    requires Shift(a) == Shift(b)
    ensures a == b
  {}

  /** Every register content recurs after 32767 shifts. */
  lemma RecursAtOrder(r: bv16)
    ensures Recurs(r, ORDER)
  {
    hide Mul, ShiftN;
    OrderIsPeriod();
    ShiftNIsMul(r, ORDER);
    MulOne(r);
  }

  /** If some multiple of c + 1 is x + 1, then multiplication by c leaves only the fixed contents alone. */
  lemma OnlyFixedStay(r: bv16, c: bv16, a: bv16)
    requires Mul(a, Plus(c, ONE)) == Plus(0x4000, ONE)
    requires Mul(r, c) == r
    ensures IsFixed(r)
  {
    hide Mul, Plus, Shift;
    MulOne(r);
    MulPlus(r, c, ONE);
    PlusGroup(r, r, 0);
    MulSwap(a, r, Plus(c, ONE));
    MulZero(a);
    MulPlus(r, 0x4000, ONE);
    ShiftMul(r, ONE);
    assert Shift(ONE) == 0x4000 by { ShiftOne(); }
    PlusGroup(Shift(r), r, 0);
    StaysIfFixed(r);
  }

  lemma ShiftOne()
    ensures Shift(ONE) == 0x4000
  {}

  lemma StaysIfFixed(r: bv16)
    ensures Shift(r) == r <==> IsFixed(r)
  {}

  /** x + 1 as a multiple of x^n + 1, for n the order divided by each of its prime factors. */
  lemma Cofactors()
    ensures Mul(0x1D77, Plus(0x4234, ONE)) == Plus(0x4000, ONE)
    ensures Mul(0x53A0, Plus(0xF54F, ONE)) == Plus(0x4000, ONE)
    ensures Mul(0x7345, Plus(0xC712, ONE)) == Plus(0x4000, ONE)
  {}

  lemma OnlyFixedRecurSooner(r: bv16)
    requires !IsFixed(r)
    ensures !Recurs(r, 31 * 151) && !Recurs(r, 7 * 151) && !Recurs(r, 7 * 31)
  {
    hide Mul, ShiftN, IsFixed, Plus;
    ProperDivisors();
    Cofactors();
    ShiftNIsMul(r, 31 * 151);
    ShiftNIsMul(r, 7 * 151);
    ShiftNIsMul(r, 7 * 31);
    if Mul(r, 0x4234) == r { OnlyFixedStay(r, 0x4234, 0x1D77); }
    if Mul(r, 0xF54F) == r { OnlyFixedStay(r, 0xF54F, 0x53A0); }
    if Mul(r, 0xC712) == r { OnlyFixedStay(r, 0xC712, 0x7345); }
  }

  ghost predicate Prime(p: nat) {
    p > 1 && forall d :: 1 < d < p ==> p % d != 0
  }

  /** Euclid's descent: r recurs after q shifts if it does after q * p and a smaller multiple of q. */
  lemma Descend(r: bv16, q: nat, p: nat, m: nat)
    requires Prime(p) && 0 < m < p
    requires Recurs(r, q * p) && Recurs(r, q * m)
    ensures Recurs(r, q)
    decreases m
  {
    hide Recurs;
    if m > 1 {
      var k, n := p / m, p % m;
      assert q * p == k * (q * m) + q * n by {
        assert p == k * m + n;
      }
      RecursRemainder(r, q * m, k, q * n);
      Descend(r, q, p, n);
    }
  }

  lemma Primes()
    ensures Prime(7) && Prime(31) && Prime(151)
  {
    forall d | 1 < d < 151
      ensures 151 % d != 0
    {
      var k := 151 / d;
      assert 151 == k * d + 151 % d;
      if d > 12 {
        assert k < 12;
        assert k == 1 || k == 2 || k == 3 || k == 4 || k == 5 || k == 6 || k == 7 || k == 8
               || k == 9 || k == 10 || k == 11 by { assert k >= 1; }
      }
    }
  }

  /** No number of shifts after which r recurs avoids the prime factor p of the order. */
  lemma PrimeDividesPeriod(r: bv16, q: nat, p: nat, n: nat)
    requires q * p == ORDER && Prime(p) && !Recurs(r, q)
    requires Recurs(r, n)
    ensures n % p == 0
  {
    hide Recurs;
    RecursAtOrder(r);
    if n % p != 0 {
      var k, m := n / p, n % p;
      RecursMultiple(r, n, q);
      assert q * n == k * (q * p) + q * m by {
        assert n == k * p + m;
      }
      RecursRemainder(r, q * p, k, q * m);
      Descend(r, q, p, m);
    }
  }

  lemma Combine(n: nat)
    requires n % 7 == 0 && n % 31 == 0 && n % 151 == 0
    ensures n % ORDER == 0
  {
    var a, b, c := n / 7, n / 31, n / 151;
    var e := 9 * b - 2 * a;
    assert n == 217 * e;
    assert n == ORDER * (23 * e - 16 * c);
  }

  /** A register content recurs after n shifts iff it is one of the two fixed ones or 32767 divides n. */
  lemma ContentRecurs(r: bv16, n: nat)
    ensures ShiftN(r, n) == r <==> IsFixed(r) || n % ORDER == 0
  {
    assert Recurs(r, n) <==> ShiftN(r, n) == r;
    hide Recurs, IsFixed;
    RecursAtOrder(r);
    if IsFixed(r) {
      FixedRecurs(r, n);
    } else if Recurs(r, n) {
      Primes();
      OnlyFixedRecurSooner(r);
      PrimeDividesPeriod(r, 31 * 151, 7, n);
      PrimeDividesPeriod(r, 7 * 151, 31, n);
      PrimeDividesPeriod(r, 7 * 31, 151, n);
      Combine(n);
    }
    if n % ORDER == 0 {
      RecursMultiple(r, ORDER, n / ORDER);
    }
  }

  /** x^n is 1 iff 32767 divides n. */
  lemma OrderOfX(n: nat)
    ensures Power(n) == ONE <==> n % ORDER == 0
  {
    ContentRecurs(ONE, n);
  }
}
