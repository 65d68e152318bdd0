/** Bytes, bit strings and 16-bit registers, and the additive structure they share. */
module Bits {
  type byte = bv8

  /** A bit string in transmission order: bytes in order, each least significant bit first. */
  type bits = seq<bool>

  /** Addition in the vector space of 16-bit registers over GF(2). */
  function Plus(a: bv16, b: bv16): bv16 {
    a ^ b
  }

  function Half(v: bv16): bv16 {
    v >> 1
  }

  predicate Low(v: bv16) {
    v & 1 != 0
  }

  function Bit(b: bool): bv16 {
    if b then 1 else 0
  }

  function Widen(b: byte): bv16 {
    b as bv16
  }

  /** The `n` low bits of `v`, least significant first. */
  function Unpack(v: bv16, n: nat): (r: bits)
    ensures |r| == n
    decreases n
  {
    if n == 0 then [] else [Low(v)] + Unpack(Half(v), n - 1)
  }

  /** What is left of `v` after removing its `n` low bits. */
  function Drop(v: bv16, n: nat): bv16
    decreases n
  {
    if n == 0 then v else Drop(Half(v), n - 1)
  }

  function BitsOf(data: seq<byte>): (r: bits)
    ensures |r| == 8 * |data|
  {
    if data == [] then [] else Unpack(Widen(data[0]), 8) + BitsOf(data[1..])
  }

  function Zeros(n: nat): (r: bits)
    ensures |r| == n
  {
    if n == 0 then [] else [false] + Zeros(n - 1)
  }

  function XorBits(a: bits, b: bits): (r: bits)
    requires |a| == |b|
    ensures |r| == |a|
  {
    if a == [] then [] else [a[0] != b[0]] + XorBits(a[1..], b[1..])
  }

  function Xor(a: seq<byte>, b: seq<byte>): (r: seq<byte>)
    requires |a| == |b|
    ensures |r| == |a|
    ensures forall i :: 0 <= i < |a| ==> r[i] == a[i] ^ b[i]
  {
    if a == [] then [] else [a[0] ^ b[0]] + Xor(a[1..], b[1..])
  }

  /** The number of set bits. */
  function Weight(m: bits): nat {
    if m == [] then 0 else (if m[0] then 1 else 0) + Weight(m[1..])
  }

  predicate Odd(m: bits) {
    m != [] && (m[0] != Odd(m[1..]))
  }

  // ---- registers ----

  lemma PlusIdentity(a: bv16)
    ensures Plus(a, 0) == a && Plus(0, a) == a && Plus(a, a) == 0
  {}

  lemma PlusCommutes(a: bv16, b: bv16)
    ensures Plus(a, b) == Plus(b, a)
  {}

  lemma PlusAssociates(a: bv16, b: bv16, c: bv16)
    ensures Plus(Plus(a, b), c) == Plus(a, Plus(b, c))
  {}

  lemma PlusZero(a: bv16, b: bv16)
    ensures Plus(a, b) == 0 <==> a == b
  {
    hide Plus;
    PlusIdentity(a);
    PlusIdentity(b);
    PlusAssociates(a, a, b);
  }

  lemma PlusGroup(a: bv16, b: bv16, c: bv16)
    ensures Plus(a, 0) == a && Plus(0, a) == a && Plus(a, a) == 0
    ensures Plus(a, b) == Plus(b, a)
    ensures Plus(Plus(a, b), c) == Plus(a, Plus(b, c))
    ensures Plus(a, b) == 0 <==> a == b
  {
    hide Plus;
    PlusIdentity(a);
    PlusCommutes(a, b);
    PlusAssociates(a, b, c);
    PlusZero(a, b);
  }

  /** (a + b) + (c + d) == (a + c) + (b + d) */
  lemma PlusSwap(a: bv16, b: bv16, c: bv16, d: bv16)
    ensures Plus(Plus(a, b), Plus(c, d)) == Plus(Plus(a, c), Plus(b, d))
  {
    hide Plus;
    PlusGroup(a, b, Plus(c, d));
    PlusGroup(b, c, d);
    PlusGroup(c, b, d);
    PlusGroup(a, c, Plus(b, d));
  }

  lemma HalfPlus(a: bv16, b: bv16)
    ensures Half(Plus(a, b)) == Plus(Half(a), Half(b))
    ensures Low(Plus(a, b)) == (Low(a) != Low(b))
  {}

  lemma LowBit(b: bool)
    ensures Low(Bit(b)) == b && Half(Bit(b)) == 0
  {}

  lemma BitPlus(a: bool, b: bool)
    ensures Bit(a != b) == Plus(Bit(a), Bit(b))
  {}

  lemma WidenXor(a: byte, b: byte)
    ensures Widen(a ^ b) == Plus(Widen(a), Widen(b))
  {}

  lemma DropByte(b: byte)
    ensures Drop(Widen(b), 8) == 0
  {}

  lemma DropAll(v: bv16)
    ensures Drop(v, 16) == 0
  {
    DropSplit(v, 8, 8);
    assert Drop(v, 8) == v >> 8;
    assert Drop(v >> 8, 8) == 0;
  }

  lemma {:induction false} DropSplit(v: bv16, m: nat, n: nat)
    ensures Drop(v, m + n) == Drop(Drop(v, m), n)
    decreases m
  {
    hide Half;
    if m > 0 {
      DropSplit(Half(v), m - 1, n);
    }
  }

  lemma {:induction false} UnpackPlus(a: bv16, b: bv16, n: nat)
    ensures Unpack(Plus(a, b), n) == XorBits(Unpack(a, n), Unpack(b, n))
    decreases n
  {
    hide Plus, Half, Low;
    if n > 0 {
      UnpackPlus(Half(a), Half(b), n - 1);
      HalfPlus(a, b);
      assert Unpack(a, n)[1..] == Unpack(Half(a), n - 1);
      assert Unpack(b, n)[1..] == Unpack(Half(b), n - 1);
    }
  }

  lemma {:induction false} UnpackSplit(v: bv16, m: nat, n: nat)
    ensures Unpack(v, m + n) == Unpack(v, m) + Unpack(Drop(v, m), n)
    decreases m
  {
    hide Half, Low;
    if m > 0 {
      UnpackSplit(Half(v), m - 1, n);
    }
  }

  lemma {:induction false} UnpackZero(n: nat)
    ensures Unpack(0, n) == Zeros(n)
  {
    if n > 0 {
      assert Half(0) == 0;
      UnpackZero(n - 1);
    }
  }

  lemma {:induction false} UnpackInjective(a: bv16, n: nat)
    requires Unpack(a, n) == Zeros(n)
    ensures a == 0 <==> Drop(a, n) == 0
    decreases n
  {
    hide Half, Low;
    if n > 0 {
      assert Unpack(a, n)[0] == Low(a);
      assert Unpack(a, n)[1..] == Unpack(Half(a), n - 1);
      assert Zeros(n)[1..] == Zeros(n - 1);
      UnpackInjective(Half(a), n - 1);
      assert a == 0 <==> Half(a) == 0 by { EvenHalf(a); }
    }
  }

  lemma EvenHalf(a: bv16)
    requires !Low(a)
    ensures a == 0 <==> Half(a) == 0
  {}

  // ---- bit strings ----

  lemma XorCons(x: bool, y: bool, a: bits, b: bits)
    requires |a| == |b|
    ensures XorBits([x] + a, [y] + b) == [x != y] + XorBits(a, b)
  {
    assert ([x] + a)[1..] == a && ([y] + b)[1..] == b;
  }

  lemma {:induction false} XorAppend(a: bits, b: bits, c: bits, d: bits)
    requires |a| == |b| && |c| == |d|
    ensures XorBits(a + c, b + d) == XorBits(a, b) + XorBits(c, d)
  {
    if a == [] {
      assert a + c == c && b + d == d;
    } else {
      var p, q := a[1..] + c, b[1..] + d;
      XorAppend(a[1..], b[1..], c, d);
      assert a + c == [a[0]] + p && b + d == [b[0]] + q;
      XorCons(a[0], b[0], p, q);
      assert XorBits(a, b) + XorBits(c, d) == [a[0] != b[0]] + (XorBits(a[1..], b[1..]) + XorBits(c, d));
    }
  }

  lemma {:induction false} XorGroup(a: bits, b: bits)
    requires |a| == |b|
    ensures XorBits(a, Zeros(|a|)) == a
    ensures XorBits(a, a) == Zeros(|a|)
    ensures XorBits(a, b) == XorBits(b, a)
  {
    if a != [] {
      XorGroup(a[1..], b[1..]);
      assert Zeros(|a|)[1..] == Zeros(|a| - 1);
    }
  }

  lemma {:induction false} XorAssociates(a: bits, b: bits, c: bits)
    requires |a| == |b| == |c|
    ensures XorBits(XorBits(a, b), c) == XorBits(a, XorBits(b, c))
  {
    if a != [] {
      XorAssociates(a[1..], b[1..], c[1..]);
      assert XorBits(a, b)[1..] == XorBits(a[1..], b[1..]);
      assert XorBits(b, c)[1..] == XorBits(b[1..], c[1..]);
    }
  }

  lemma XorCancels(a: bits, b: bits, c: bits)
    requires |a| == |b| == |c|
    requires XorBits(a, b) == XorBits(a, c)
    ensures b == c
  {
    hide XorBits;
    XorAssociates(a, a, b);
    XorAssociates(a, a, c);
    XorGroup(a, a);
    XorGroup(b, Zeros(|b|));
    XorGroup(c, Zeros(|c|));
  }

  lemma {:induction false} BitsOfXor(a: seq<byte>, b: seq<byte>)
    requires |a| == |b|
    ensures BitsOf(Xor(a, b)) == XorBits(BitsOf(a), BitsOf(b))
  {
    hide Unpack, Widen, Plus;
    if a != [] {
      BitsOfXor(a[1..], b[1..]);
      WidenXor(a[0], b[0]);
      UnpackPlus(Widen(a[0]), Widen(b[0]), 8);
      XorAppend(Unpack(Widen(a[0]), 8), Unpack(Widen(b[0]), 8), BitsOf(a[1..]), BitsOf(b[1..]));
    }
  }

  lemma {:induction false} BitsOfAppend(a: seq<byte>, b: seq<byte>)
    ensures BitsOf(a + b) == BitsOf(a) + BitsOf(b)
  {
    hide Unpack;
    if a == [] {
      assert a + b == b;
    } else {
      assert (a + b)[1..] == a[1..] + b;
      BitsOfAppend(a[1..], b);
    }
  }

  lemma ZerosAppend(m: nat, n: nat)
    ensures Zeros(m) + Zeros(n) == Zeros(m + n)
  {
    if m > 0 {
      ZerosAppend(m - 1, n);
    }
  }

  lemma {:induction false} OddZeros(n: nat)
    ensures !Odd(Zeros(n))
  {
    if n > 0 {
      assert Zeros(n)[1..] == Zeros(n - 1);
      OddZeros(n - 1);
    }
  }

  lemma {:induction false} OddXor(a: bits, b: bits)
    requires |a| == |b|
    ensures Odd(XorBits(a, b)) == (Odd(a) != Odd(b))
  {
    if a != [] {
      OddXor(a[1..], b[1..]);
    }
  }

  lemma {:induction false} OddAppend(a: bits, b: bits)
    ensures Odd(a + b) == (Odd(a) != Odd(b))
  {
    if a == [] {
      assert a + b == b;
    } else {
      assert (a + b)[1..] == a[1..] + b;
      OddAppend(a[1..], b);
    }
  }

  lemma {:induction false} OddIsOddWeight(m: bits)
    ensures Odd(m) <==> Weight(m) % 2 == 1
  {
    if m != [] {
      OddIsOddWeight(m[1..]);
    }
  }

  /** Split at the first set bit. */
  lemma FirstSet(m: bits) returns (i: nat)
    requires Weight(m) > 0
    ensures i < |m| && m[i] && m == Zeros(i) + [true] + m[i + 1..]
    ensures Weight(m[i + 1..]) == Weight(m) - 1
  {
    if m[0] {
      i := 0;
    } else {
      i := FirstSet(m[1..]);
      i := i + 1;
      assert m == [false] + m[1..];
      assert m[1..][i..] == m[i + 1..];
    }
  }

  lemma {:induction false} NoWeight(m: bits)
    ensures Weight(m) == 0 <==> m == Zeros(|m|)
  {
    if m != [] {
      NoWeight(m[1..]);
      assert m == [m[0]] + m[1..];
      assert Zeros(|m|)[1..] == Zeros(|m| - 1);
    }
  }
}
