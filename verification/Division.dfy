/**
 * The checksum as polynomial division over GF(2). A polynomial is its string of
 * coefficients, highest degree first; the first bit on the wire is the highest coefficient.
 */
module Division {
  import opened Bits
  import opened Checksum

  /** x^16 + x^12 + x^5 + 1 */
  const GENERATOR: bits := [
    true, false, false, false, true, false, false, false,
    false, false, false, true, false, false, false, false, true]

  function Scale(f: bool): (r: bits)
    ensures |r| == 17 && r[0] == f
  {
    if f then GENERATOR else Zeros(17)
  }

  /** The product of `q` and the generator. */
  function Times(q: bits): (r: bits)
    ensures |r| == |q| + 16
  {
    if q == [] then Zeros(16)
    else XorBits(Scale(q[0]) + Zeros(|q| - 1), [false] + Times(q[1..]))
  }

  /** `m` times x^16, with the register contents added to its 16 leading coefficients. */
  function Dividend(r: bv16, m: bits): (d: bits)
    ensures |d| == |m| + 16
  {
    XorBits(m + Zeros(16), Unpack(r, 16) + Zeros(|m|))
  }

  ghost predicate Divides(dividend: bits, q: bits, remainder: bits)
    requires |dividend| == |q| + 16 && |remainder| == 16
  {
    dividend == XorBits(Times(q), Zeros(|q|) + remainder)
  }

  ghost predicate IsRemainder(dividend: bits, remainder: bits)
    requires |dividend| >= 16 && |remainder| == 16
  {
    exists q: bits | |q| == |dividend| - 16 :: Divides(dividend, q, remainder)
  }

  // ---- the shift on coefficients ----

  lemma UnpackPolynomial()
    ensures Unpack(POLYNOMIAL, 16) == GENERATOR[1..]
  {
    UnpackSplit(POLYNOMIAL, 8, 8);
    assert Drop(POLYNOMIAL, 8) == 0x84;
    assert Unpack(POLYNOMIAL, 8) == [false, false, false, true, false, false, false, false];
    assert Unpack(0x84, 8) == [false, false, true, false, false, false, false, true];
  }

  lemma UnpackShift(r: bv16)
    ensures Unpack(Shift(r), 16) == XorBits(Unpack(r, 16)[1..] + [false], Scale(Low(r))[1..])
  {
    hide Plus, Half, Low, Unpack, Drop;
    var h := Half(r);
    assert Unpack(r, 16)[1..] == Unpack(h, 15) && Drop(h, 15) == 0 by {
      DropAll(r);
      UnpackTail(r);
    }
    UnpackTop(h);
    UnpackPlus(h, POLYNOMIAL, 16);
    UnpackPolynomial();
    XorGroup(Unpack(h, 16), Unpack(h, 16));
    assert Zeros(17)[1..] == Zeros(16);
  }

  lemma UnpackTop(h: bv16)
    requires Drop(h, 15) == 0
    ensures Unpack(h, 16) == Unpack(h, 15) + [false]
  {
    hide Unpack, Drop;
    UnpackSplit(h, 15, 1);
    UnpackZero(1);
    assert Zeros(1) == [false];
  }

  lemma UnpackTail(r: bv16)
    ensures Unpack(r, 16)[1..] == Unpack(Half(r), 15)
    ensures Drop(r, 16) == Drop(Half(r), 15)
  {}

  // ---- division ----

  ghost function Quotient(r: bv16, m: bits): (q: bits)
    ensures |q| == |m|
    decreases |m|
  {
    if m == [] then []
    else
      var x := Plus(r, Bit(m[0]));
      [Low(x)] + Quotient(Shift(x), m[1..])
  }

  lemma {:induction false} XorRearrange(a: bits, b: bits, c: bits, t: bits, e: bits)
    requires |a| == |b| == |c| == |t| == |e|
    requires XorBits(a, XorBits(b, c)) == XorBits(t, e)
    ensures XorBits(a, b) == XorBits(XorBits(c, t), e)
  {
    hide XorBits;
    XorAssociates(c, t, e);
    XorAssociates(a, b, c);
    XorGroup(c, XorBits(t, e));
    XorAssociates(XorBits(a, b), c, c);
    XorGroup(c, c);
    XorGroup(XorBits(a, b), XorBits(a, b));
  }

  lemma {:induction false} FeedDivides(r: bv16, m: bits)
    ensures Divides(Dividend(r, m), Quotient(r, m), Unpack(Feed(r, m), 16))
    decreases |m|
  {
    if m == [] {
      DividesNothing(r);
    } else {
      var x := Plus(r, Bit(m[0]));
      FeedDivides(Shift(x), m[1..]);
      DividesStep(r, m);
    }
  }

  lemma DividesNothing(r: bv16)
    ensures Divides(Dividend(r, []), [], Unpack(r, 16))
  {
    hide Unpack;
    assert [] + Zeros(16) == Zeros(16);
    assert Zeros(0) == [];
    assert Unpack(r, 16) + Zeros(0) == Unpack(r, 16) == Zeros(0) + Unpack(r, 16);
  }

  lemma DividesStep(r: bv16, m: bits)
    requires m != []
    requires var s := Shift(Plus(r, Bit(m[0])));
      Divides(Dividend(s, m[1..]), Quotient(s, m[1..]), Unpack(Feed(s, m[1..]), 16))
    ensures Divides(Dividend(r, m), Quotient(r, m), Unpack(Feed(r, m), 16))
  {
    hide Plus, Bit, Low, Shift, Unpack, Zeros, XorBits;
    var x := Plus(r, Bit(m[0]));
    var n, q, rem := |m| - 1, Quotient(Shift(x), m[1..]), Unpack(Feed(r, m), 16);
    var u, g := Unpack(r, 16)[1..] + [false], Scale(Low(x))[1..];
    assert Unpack(Shift(x), 16) == XorBits(u, g) && Low(x) == (Unpack(r, 16)[0] != m[0]) by {
      LeadingBit(r, m[0]);
      UnpackShift(x);
    }
    XorAppend(u, g, Zeros(n), Zeros(n));
    XorGroup(Zeros(n), Zeros(n));
    XorRearrange(m[1..] + Zeros(16), u + Zeros(n), g + Zeros(n), Times(q), Zeros(n) + rem);
    DividendCons(r, m);
    ProductCons(Low(x), q, rem);
    assert Quotient(r, m) == [Low(x)] + q;
  }

  lemma LeadingBit(r: bv16, b: bool)
    ensures Unpack(r, 16)[0] == Low(r)
    ensures Low(Plus(r, Bit(b))) == (Low(r) != b)
    ensures Unpack(Plus(r, Bit(b)), 16)[1..] == Unpack(r, 16)[1..]
  {
    hide Plus, Bit, Low, Half;
    LowBit(b);
    HalfPlus(r, Bit(b));
    PlusGroup(Half(r), 0, 0);
    UnpackTail(r);
    UnpackTail(Plus(r, Bit(b)));
  }

  lemma DividendCons(r: bv16, m: bits)
    requires m != []
    ensures var n, u := |m| - 1, Unpack(r, 16);
      Dividend(r, m) == [m[0] != u[0]] + XorBits(m[1..] + Zeros(16), u[1..] + [false] + Zeros(n))
  {
    hide Unpack, XorBits;
    var n, u := |m| - 1, Unpack(r, 16);
    assert m + Zeros(16) == [m[0]] + (m[1..] + Zeros(16));
    assert u + Zeros(n + 1) == [u[0]] + (u[1..] + [false] + Zeros(n));
    XorCons(m[0], u[0], m[1..] + Zeros(16), u[1..] + [false] + Zeros(n));
  }

  lemma {:induction false} ProductCons(f: bool, q: bits, rem: bits)
    requires |rem| == 16
    ensures var n := |q|;
      XorBits(Times([f] + q), Zeros(n + 1) + rem)
        == [f] + XorBits(XorBits(Scale(f)[1..] + Zeros(n), Times(q)), Zeros(n) + rem)
  {
    hide XorBits, Times, Scale;
    var n := |q|;
    TimesCons(f, q);
    assert Zeros(n + 1) + rem == [false] + (Zeros(n) + rem);
    XorCons(f, false, XorBits(Scale(f)[1..] + Zeros(n), Times(q)), Zeros(n) + rem);
  }

  lemma {:induction false} TimesCons(f: bool, q: bits)
    ensures Times([f] + q) == [f] + XorBits(Scale(f)[1..] + Zeros(|q|), Times(q))
  {
    hide XorBits, Scale;
    assert ([f] + q)[1..] == q;
    assert Scale(f) + Zeros(|q|) == [f] + (Scale(f)[1..] + Zeros(|q|));
    XorCons(f, false, Scale(f)[1..] + Zeros(|q|), Times(q));
  }

  /** The generator is monic, so quotient and remainder are unique. */
  lemma {:induction false} DivisionUnique(q: bits, r: bits, q': bits, r': bits)
    requires |q| == |q'| && |r| == |r'| == 16
    requires XorBits(Times(q), Zeros(|q|) + r) == XorBits(Times(q'), Zeros(|q'|) + r')
    ensures q == q' && r == r'
  {
    hide XorBits;
    var n := |q|;
    if n == 0 {
      assert Zeros(0) + r == r && Zeros(0) + r' == r';
      XorCancels(Zeros(16), r, r');
    } else {
      var p, p' := q[1..], q'[1..];
      assert q == [q[0]] + p && q' == [q'[0]] + p';
      ProductCons(q[0], p, r);
      ProductCons(q'[0], p', r');
      var g, e, e' := Scale(q[0])[1..] + Zeros(n - 1), Zeros(n - 1) + r, Zeros(n - 1) + r';
      var a, a' := XorBits(XorBits(g, Times(p)), e), XorBits(XorBits(g, Times(p')), e');
      assert [q[0]] + a == [q'[0]] + XorBits(XorBits(Scale(q'[0])[1..] + Zeros(n - 1), Times(p')), e');
      assert q[0] == ([q[0]] + a)[0] == q'[0];
      assert a == ([q[0]] + a)[1..] == ([q[0]] + a')[1..] == a';
      XorAssociates(g, Times(p), e);
      XorAssociates(g, Times(p'), e');
      XorCancels(g, XorBits(Times(p), e), XorBits(Times(p'), e'));
      DivisionUnique(p, r, p', r');
    }
  }

  /** The coefficient at place k, counted from the highest. */
  predicate At(q: bits, k: int) {
    0 <= k < |q| && q[k]
  }

  /** The generator written out: q times x^16 + x^12 + x^5 + 1. */
  lemma {:induction false} TimesAt(q: bits, k: nat)
    requires k < |q| + 16
    ensures Times(q)[k] == ((At(q, k) != At(q, k - 4)) != (At(q, k - 11) != At(q, k - 16)))
    decreases |q|
  {
    hide At, Times;
    if q == [] {
      TimesNothing(k);
    } else {
      var p := q[1..];
      TimesFirst(q, k);
      AtTail(q, k);
      AtTail(q, k - 4);
      AtTail(q, k - 11);
      AtTail(q, k - 16);
      AtNowhere(p, k);
      if k > 0 {
        TimesAt(p, k - 1);
      }
      Toggle(q[0], k, At(p, k - 1), At(p, k - 5), At(p, k - 12), At(p, k - 17));
    }
  }

  lemma TimesNothing(k: nat)
    requires k < 16
    ensures !Times([])[k] && forall i: int :: !At([], i)
  {
    ZerosClear(16, k);
  }

  /** Exclusive or with a coefficient of the first row. */
  lemma Toggle(f: bool, k: nat, a: bool, b: bool, c: bool, d: bool)
    requires (k == 0 ==> !a) && (k <= 4 ==> !b) && (k <= 11 ==> !c) && (k <= 16 ==> !d)
    ensures (((if k == 0 then f else a) != (if k == 4 then f else b))
             != ((if k == 11 then f else c) != (if k == 16 then f else d)))
         == ((f && (k == 0 || k == 4 || k == 11 || k == 16)) != ((a != b) != (c != d)))
  {}

  lemma {:induction false} TimesFirst(q: bits, k: nat)
    requires q != [] && k < |q| + 16
    ensures Times(q)[k]
         == ((q[0] && (k == 0 || k == 4 || k == 11 || k == 16)) != (k > 0 && Times(q[1..])[k - 1]))
  {
    hide Scale, Zeros, XorBits;
    var n := |q| - 1;
    XorAt(Scale(q[0]) + Zeros(n), [false] + Times(q[1..]), k);
    ScaleAt(q[0], n, k);
  }

  lemma AtNowhere(q: bits, k: nat)
    ensures k == 0 ==> !At(q, k - 1)
    ensures k <= 4 ==> !At(q, k - 5)
    ensures k <= 11 ==> !At(q, k - 12)
    ensures k <= 16 ==> !At(q, k - 17)
  {}

  lemma AtTail(q: bits, k: int)
    requires q != []
    ensures At(q, k) == if k == 0 then q[0] else At(q[1..], k - 1)
  {}

  lemma ScaleAt(f: bool, n: nat, k: nat)
    requires k < n + 17
    ensures (Scale(f) + Zeros(n))[k] == (f && (k == 0 || k == 4 || k == 11 || k == 16))
  {
    if k >= 17 {
      ZerosClear(n, k - 17);
    } else if !f {
      ZerosClear(17, k);
    }
  }

  lemma {:induction false} ZerosClear(n: nat, k: nat)
    requires k < n
    ensures !Zeros(n)[k]
    decreases n
  {
    if k > 0 {
      ZerosClear(n - 1, k - 1);
    }
  }

  lemma {:induction false} XorAt(a: bits, b: bits, k: nat)
    requires |a| == |b| && k < |a|
    ensures XorBits(a, b)[k] == (a[k] != b[k])
    decreases |a|
  {
    if k > 0 {
      XorAt(a[1..], b[1..], k - 1);
    }
  }

  lemma PresetIsOnes()
    ensures Unpack(PRESET, 16)
         == [true, true, true, true, true, true, true, true, true, true, true, true, true, true, true, true]
  {
    UnpackSplit(PRESET, 8, 8);
    assert Drop(PRESET, 8) == 0xFF;
    assert Unpack(0xFF, 8) == [true, true, true, true, true, true, true, true];
    assert Unpack(PRESET, 8) == Unpack(0xFF, 8);
  }

  /** What the bit-serial register ends with is the one and only remainder. */
  lemma {:induction false} FeedIsRemainder(r: bv16, m: bits, remainder: bits)
    requires |remainder| == 16
    ensures IsRemainder(Dividend(r, m), remainder) <==> remainder == Unpack(Feed(r, m), 16)
  {
    hide Unpack, XorBits, Times, Feed;
    FeedDivides(r, m);
    var dividend, q0, end := Dividend(r, m), Quotient(r, m), Unpack(Feed(r, m), 16);
    hide Dividend, Quotient;
    assert Divides(dividend, q0, end);
    if IsRemainder(dividend, remainder) {
      var q :| |q| == |m| && Divides(dividend, q, remainder);
      DivisionUnique(q, remainder, q0, end);
    }
  }

  /**
   * The checksum register, read lowest bit first, is the one and only remainder of the
   * message times x^16, with ones added to its 16 leading coefficients, modulo the generator.
   */
  lemma {:induction false} CrcIsRemainder(data: seq<byte>, remainder: bits)
    requires |remainder| == 16
    ensures
      var ones := [true, true, true, true, true, true, true, true, true, true, true, true, true, true, true, true];
      var m := BitsOf(data);
      IsRemainder(XorBits(m + Zeros(16), ones + Zeros(|m|)), remainder) <==> remainder == Unpack(Crc(data), 16)
  {
    hide Unpack, XorBits, IsRemainder, Feed, Update, Zeros, BitsOf;
    PresetIsOnes();
    UpdateIsFeed(PRESET, data);
    FeedIsRemainder(PRESET, BitsOf(data), remainder);
  }

  lemma DividesExactly(m: bits, q: bits)
    requires |q| == |m|
    ensures Divides(Dividend(0, m), q, Zeros(16)) <==> m + Zeros(16) == Times(q)
  {
    hide Unpack, XorBits, Times;
    UnpackZero(16);
    ZerosAppend(16, |m|);
    ZerosAppend(|m|, 16);
    XorGroup(m + Zeros(16), m + Zeros(16));
    XorGroup(Times(q), Times(q));
  }

  /** An error pattern leaves the checksum unchanged iff the generator divides it. */
  lemma {:induction false} SyndromeIsRemainder(e: seq<byte>)
    ensures Syndrome(e) == 0
        <==> exists q: bits | |q| == 8 * |e| :: BitsOf(e) + Zeros(16) == Times(q)
  {
    hide Unpack, XorBits, Times, Feed, Zeros, Dividend;
    var m, s := BitsOf(e), Syndrome(e);
    var q0 := Quotient(0, m);
    FeedDivides(0, m);
    UnpackZero(16);
    if s == 0 {
      DividesExactly(m, q0);
    }
    if q: bits :| |q| == 8 * |e| && m + Zeros(16) == Times(q) {
      DividesExactly(m, q);
      DivisionUnique(q, Zeros(16), q0, Unpack(s, 16));
      UnpackInjective(s, 16);
      DropAll(s);
    }
  }

  // ---- parity ----

  lemma {:induction false} FeedParity(r: bv16, m: bits)
    ensures Odd(Unpack(Feed(r, m), 16)) == (Odd(Unpack(r, 16)) != Odd(m))
    decreases |m|
  {
    hide Plus, Bit, Low, Shift, Unpack, XorBits;
    if m != [] {
      var x := Plus(r, Bit(m[0]));
      FeedParity(Shift(x), m[1..]);
      ShiftParity(x);
      LeadingBit(r, m[0]);
      LeadingBit(x, false);
    }
  }

  lemma ShiftParity(r: bv16)
    ensures Odd(Unpack(Shift(r), 16)) == Odd(Unpack(r, 16))
  {
    hide Plus, Low, Shift, Unpack, XorBits, Half;
    var u, g := Unpack(r, 16)[1..], Scale(Low(r))[1..];
    UnpackShift(r);
    OddXor(u + [false], g);
    OddAppend(u, [false]);
    LeadingBit(r, false);
    GeneratorParity(Low(r));
  }

  lemma GeneratorParity(f: bool)
    ensures Odd(Scale(f)[1..]) == f
  {
    if f {
      var a, b, c := [false, false, false, true], [false, false, false, false], [false, false, true, false];
      assert GENERATOR[1..] == a + (b + (c + a));
      hide Odd;
      OddAppend(a, b + (c + a));
      OddAppend(b, c + a);
      OddAppend(c, a);
      OddOfFour(false, false, false, true);
      OddOfFour(false, false, false, false);
      OddOfFour(false, false, true, false);
    } else {
      assert Zeros(17)[1..] == Zeros(16);
      OddZeros(16);
    }
  }

  lemma OddOfFour(a: bool, b: bool, c: bool, d: bool)
    ensures Odd([a, b, c, d]) == (a != (b != (c != d)))
  {
    assert [a, b, c, d] == [a] + ([b] + ([c] + [d]));
    OddAppend([a], [b] + ([c] + [d]));
    OddAppend([b], [c] + [d]);
    OddAppend([c], [d]);
  }

  lemma PresetParity()
    ensures !Odd(Unpack(PRESET, 16))
  {
    PresetIsOnes();
    hide Unpack, Odd;
    var four := [true, true, true, true];
    assert Unpack(PRESET, 16) == four + (four + (four + four));
    OddOfFour(true, true, true, true);
    OddAppend(four, four);
    OddAppend(four, four + four);
    OddAppend(four, four + (four + four));
  }

  /** The checksum has the parity of the data it covers. */
  lemma CrcParity(data: seq<byte>)
    ensures Odd(Unpack(Crc(data), 16)) == Odd(BitsOf(data))
  {
    hide Unpack, Feed, Update;
    UpdateIsFeed(PRESET, data);
    FeedParity(PRESET, BitsOf(data));
    PresetParity();
  }
}
