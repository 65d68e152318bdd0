/** The CRC-16 of `checksum.py`: the bitwise loop, its specification, and its linear algebra. */
module Checksum {
  import opened Bits

  const PRESET: bv16 := 0xFFFF
  const POLYNOMIAL: bv16 := 0x8408

  /** One turn of the inner loop. */
  function Shift(r: bv16): bv16 {
    if Low(r) then Plus(Half(r), POLYNOMIAL) else Half(r)
  }

  function ShiftN(r: bv16, n: nat): bv16
    decreases n
  {
    if n == 0 then r else ShiftN(Shift(r), n - 1)
  }

  function ByteStep(r: bv16, b: byte): bv16 {
    ShiftN(Plus(r, Widen(b)), 8)
  }

  function Update(r: bv16, data: seq<byte>): bv16
    decreases |data|
  {
    if data == [] then r else Update(ByteStep(r, data[0]), data[1..])
  }

  function Crc(data: seq<byte>): bv16 {
    Update(PRESET, data)
  }

  /**
   * The source's register is an unbounded integer; here it is 32 bits wide. `register` is its
   * content before the final mask: nothing ever reaches the upper half, so the mask is the identity.
   */
  method Crc16(data: seq<byte>) returns (result: bv16, ghost register: bv32)
    ensures result == Crc(data)
    ensures register == result as bv32
  {
    hide Shift, Plus, Widen, Masked;
    var crc: bv32 := PRESET as bv32;
    NarrowMask(crc);
    for i := 0 to |data|
      invariant crc & 0xFFFF_0000 == 0
      invariant Update(Masked(crc), data[i..]) == Crc(data)
    {
      ghost var start := Masked(crc);
      NarrowByte(crc, data[i]);
      crc := crc ^ (data[i] as bv32);
      for j := 0 to 8
        invariant crc & 0xFFFF_0000 == 0
        invariant ShiftN(Masked(crc), 8 - j) == ByteStep(start, data[i])
      {
        NarrowShift(crc);
        crc := if crc & 1 != 0 then (crc >> 1) ^ (POLYNOMIAL as bv32) else crc >> 1;
      }
      assert data[i..][1..] == data[i + 1..];
    }
    NarrowMask(crc);
    register := crc;
    result := Masked(crc);
  }

  /** `crc & 0xFFFF` */
  function Masked(crc: bv32): bv16 {
    (crc & 0xFFFF) as bv16
  }

  lemma NarrowMask(crc: bv32)
    requires crc & 0xFFFF_0000 == 0
    ensures Masked(crc) as bv32 == crc
  {}

  lemma NarrowByte(crc: bv32, b: byte)
    requires crc & 0xFFFF_0000 == 0
    ensures (crc ^ (b as bv32)) & 0xFFFF_0000 == 0
    ensures Masked(crc ^ (b as bv32)) == Plus(Masked(crc), Widen(b))
  {
    NarrowXor(crc, b as bv32);
    assert Masked(b as bv32) == Widen(b);
  }

  lemma NarrowXor(crc: bv32, b: bv32)
    ensures Masked(crc ^ b) == Plus(Masked(crc), Masked(b))
  {}

  lemma NarrowShift(crc: bv32)
    requires crc & 0xFFFF_0000 == 0
    ensures var next := if crc & 1 != 0 then (crc >> 1) ^ (POLYNOMIAL as bv32) else crc >> 1;
            next & 0xFFFF_0000 == 0 && Masked(next) == Shift(Masked(crc))
  {}

  // ---- the shift is linear and invertible ----

  lemma ShiftPlus(a: bv16, b: bv16)
    ensures Shift(Plus(a, b)) == Plus(Shift(a), Shift(b))
  {
    hide Plus, Half, Low;
    HalfPlus(a, b);
    var p, q := Half(a), Half(b);
    PlusGroup(p, q, POLYNOMIAL);
    PlusGroup(p, POLYNOMIAL, q);
    PlusGroup(POLYNOMIAL, q, 0);
    PlusSwap(p, POLYNOMIAL, q, POLYNOMIAL);
    PlusGroup(Plus(p, q), POLYNOMIAL, POLYNOMIAL);
  }

  lemma ShiftZero(r: bv16)
    ensures Shift(r) == 0 <==> r == 0
  {}

  lemma {:induction false} ShiftNPlus(a: bv16, b: bv16, n: nat)
    ensures ShiftN(Plus(a, b), n) == Plus(ShiftN(a, n), ShiftN(b, n))
    decreases n
  {
    hide Plus, Shift;
    if n > 0 {
      ShiftPlus(a, b);
      ShiftNPlus(Shift(a), Shift(b), n - 1);
    }
  }

  lemma {:induction false} ShiftNZero(r: bv16, n: nat)
    ensures ShiftN(r, n) == 0 <==> r == 0
    decreases n
  {
    hide Shift;
    if n > 0 {
      ShiftZero(r);
      ShiftNZero(Shift(r), n - 1);
    }
  }

  lemma {:induction false} ShiftNAdd(r: bv16, m: nat, n: nat)
    ensures ShiftN(r, m + n) == ShiftN(ShiftN(r, m), n)
    decreases m
  {
    hide Shift;
    if m > 0 {
      ShiftNAdd(Shift(r), m - 1, n);
    }
  }

  // ---- the same register fed one bit at a time ----

  function Feed(r: bv16, m: bits): bv16
    decreases |m|
  {
    if m == [] then r else Feed(Shift(Plus(r, Bit(m[0]))), m[1..])
  }

  lemma {:induction false} FeedAppend(r: bv16, a: bits, b: bits)
    ensures Feed(r, a + b) == Feed(Feed(r, a), b)
    decreases |a|
  {
    hide Plus, Shift, Bit;
    if a == [] {
      assert a + b == b;
    } else {
      assert (a + b)[1..] == a[1..] + b;
      FeedAppend(Shift(Plus(r, Bit(a[0]))), a[1..], b);
    }
  }

  lemma {:induction false} FeedPlus(r: bv16, s: bv16, a: bits, b: bits)
    requires |a| == |b|
    ensures Feed(Plus(r, s), XorBits(a, b)) == Plus(Feed(r, a), Feed(s, b))
    decreases |a|
  {
    hide Plus, Shift, Bit;
    if a != [] {
      var x, y := Plus(r, Bit(a[0])), Plus(s, Bit(b[0]));
      BitPlus(a[0], b[0]);
      PlusSwap(r, s, Bit(a[0]), Bit(b[0]));
      ShiftPlus(x, y);
      FeedPlus(Shift(x), Shift(y), a[1..], b[1..]);
    }
  }

  lemma {:induction false} FeedZeros(r: bv16, n: nat)
    ensures Feed(r, Zeros(n)) == ShiftN(r, n)
    decreases n
  {
    hide Plus, Shift;
    if n > 0 {
      PlusGroup(r, 0, 0);
      assert Zeros(n)[1..] == Zeros(n - 1);
      FeedZeros(Shift(r), n - 1);
    }
  }

  /** Adding a word and shifting n times consumes its n low bits one at a time. */
  lemma {:induction false} FeedUnpack(r: bv16, v: bv16, n: nat)
    ensures Feed(r, Unpack(v, n)) == Plus(ShiftN(Plus(r, v), n), Drop(v, n))
    decreases n
  {
    hide Plus, Shift, Half, Low, Bit;
    if n == 0 {
      PlusGroup(r, v, v);
      PlusGroup(v, v, v);
      PlusGroup(r, 0, 0);
    } else {
      var s := Shift(Plus(r, Bit(Low(v))));
      ShiftBit(r, v);
      assert Unpack(v, n)[1..] == Unpack(Half(v), n - 1);
      FeedUnpack(s, Half(v), n - 1);
    }
  }

  lemma ShiftBit(r: bv16, v: bv16)
    ensures Shift(Plus(r, v)) == Plus(Shift(Plus(r, Bit(Low(v)))), Half(v))
  {
    hide Plus, Half, Low, Bit;
    var b := Bit(Low(v));
    LowBit(Low(v));
    HalfPlus(r, v);
    HalfPlus(r, b);
    var p, q := Half(r), Half(v);
    PlusGroup(p, 0, 0);
    PlusGroup(p, q, POLYNOMIAL);
    PlusGroup(p, POLYNOMIAL, q);
    PlusGroup(POLYNOMIAL, q, 0);
  }

  lemma ByteStepIsFeed(r: bv16, b: byte)
    ensures ByteStep(r, b) == Feed(r, Unpack(Widen(b), 8))
  {
    hide Plus, Widen, ShiftN;
    FeedUnpack(r, Widen(b), 8);
    DropByte(b);
    PlusGroup(ByteStep(r, b), 0, 0);
  }

  lemma {:induction false} UpdateIsFeed(r: bv16, data: seq<byte>)
    ensures Update(r, data) == Feed(r, BitsOf(data))
    decreases |data|
  {
    hide ByteStep, Widen, Feed, Unpack;
    if data == [] {
      FeedZeros(r, 0);
      assert Zeros(0) == [];
    } else {
      ByteStepIsFeed(r, data[0]);
      UpdateIsFeed(ByteStep(r, data[0]), data[1..]);
      FeedAppend(r, Unpack(Widen(data[0]), 8), BitsOf(data[1..]));
    }
  }

  lemma {:induction false} UpdateAppend(r: bv16, a: seq<byte>, b: seq<byte>)
    ensures Update(r, a + b) == Update(Update(r, a), b)
    decreases |a|
  {
    hide ByteStep;
    if a == [] {
      assert a + b == b;
    } else {
      assert (a + b)[1..] == a[1..] + b;
      UpdateAppend(ByteStep(r, a[0]), a[1..], b);
    }
  }

  // ---- what follows for the checksum ----

  /** What an error pattern adds to the checksum; zero means the pattern goes unnoticed. */
  function Syndrome(e: seq<byte>): bv16 {
    Feed(0, BitsOf(e))
  }

  lemma {:induction false} CrcXor(data: seq<byte>, e: seq<byte>)
    requires |data| == |e|
    ensures Crc(Xor(data, e)) == Plus(Crc(data), Syndrome(e))
  {
    hide Plus, Feed, BitsOf;
    UpdateIsFeed(PRESET, data);
    UpdateIsFeed(PRESET, Xor(data, e));
    BitsOfXor(data, e);
    PlusGroup(PRESET, 0, 0);
    FeedPlus(PRESET, 0, BitsOf(data), BitsOf(e));
  }

  /** The checksum is affine over GF(2). */
  lemma {:induction false} CrcAffine(a: seq<byte>, b: seq<byte>, c: seq<byte>)
    requires |a| == |b| == |c|
    ensures Crc(Xor(Xor(a, b), c)) == Plus(Plus(Crc(a), Crc(b)), Crc(c))
  {
    hide Plus, Syndrome, Crc;
    var e := Xor(b, c);
    XorCancel(a, b, c);
    CrcXor(a, e);
    CrcXor(b, e);
    var x, y, s := Crc(a), Crc(b), Syndrome(e);
    assert Crc(c) == Plus(y, s);
    PlusGroup(x, y, Plus(y, s));
    PlusGroup(y, y, s);
    PlusGroup(s, 0, 0);
  }

  lemma XorCancel(a: seq<byte>, b: seq<byte>, c: seq<byte>)
    requires |a| == |b| == |c|
    ensures Xor(Xor(a, b), c) == Xor(a, Xor(b, c))
    ensures Xor(b, Xor(b, c)) == c
  {
    forall i | 0 <= i < |a|
      ensures (a[i] ^ b[i]) ^ c[i] == a[i] ^ (b[i] ^ c[i]) && b[i] ^ (b[i] ^ c[i]) == c[i]
    {
      XorByte(a[i], b[i], c[i]);
    }
  }

  lemma XorByte(a: byte, b: byte, c: byte)
    ensures (a ^ b) ^ c == a ^ (b ^ c) && b ^ (b ^ c) == c
  {}

  // ---- the little-endian trailer ----

  function LowByte(r: bv16): byte {
    (r & 0xFF) as byte
  }

  function HighByte(r: bv16): byte {
    (r >> 8) as byte
  }

  /** `crc.to_bytes(2, "little")` */
  function Trailer(r: bv16): (t: seq<byte>)
    ensures |t| == 2
  {
    [LowByte(r), HighByte(r)]
  }

  /** `int.from_bytes(t, "little")` */
  function TrailerValue(t: seq<byte>): bv16
    requires |t| == 2
  {
    Word(t[0], t[1])
  }

  function Word(lo: byte, hi: byte): bv16 {
    (lo as bv16) | ((hi as bv16) << 8)
  }

  lemma TrailerRoundTrip(r: bv16)
    ensures TrailerValue(Trailer(r)) == r
  {}

  lemma TrailerOnto(t: seq<byte>)
    requires |t| == 2
    ensures Trailer(TrailerValue(t)) == t
  {
    var lo, hi := t[0], t[1];
    assert LowByte(Word(lo, hi)) == lo && HighByte(Word(lo, hi)) == hi;
  }

  function Raise(b: byte): bv16 {
    (b as bv16) << 8
  }

  lemma UnpackWord(lo: byte, hi: byte)
    ensures Unpack(Word(lo, hi), 16) == Unpack(Widen(lo), 8) + Unpack(Widen(hi), 8)
  {
    hide Word, Widen, Raise, Plus, Unpack, Drop;
    WordSum(lo, hi);
    WordDrop(lo, hi);
    UnpackSplit(Word(lo, hi), 8, 8);
    UnpackPlus(Widen(lo), Raise(hi), 8);
    UnpackRaised(hi);
    XorGroup(Unpack(Widen(lo), 8), Zeros(8));
  }

  lemma WordSum(lo: byte, hi: byte)
    ensures Word(lo, hi) == Plus(Widen(lo), Raise(hi))
  {}

  lemma WordDrop(lo: byte, hi: byte)
    ensures Drop(Word(lo, hi), 8) == Widen(hi)
  {}

  lemma UnpackRaised(b: byte)
    ensures Unpack(Raise(b), 8) == Zeros(8)
  {
    UnpackHigh(Raise(b));
  }

  lemma UnpackHigh(h: bv16)
    requires h & 0xFF == 0
    ensures Unpack(h, 8) == Zeros(8)
  {
    assert !Low(h) && !Low(h >> 1) && !Low(h >> 2) && !Low(h >> 3);
    assert !Low(h >> 4) && !Low(h >> 5) && !Low(h >> 6) && !Low(h >> 7);
  }

  /** A string of at least two bytes has checksum zero iff it ends with its own checksum. */
  lemma Residue(body: seq<byte>, trailer: seq<byte>)
    requires |trailer| == 2
    ensures Crc(body + trailer) == 0 <==> Crc(body) == TrailerValue(trailer)
  {
    hide Plus, Feed, Update, BitsOf, Word, Unpack;
    var r, w := Crc(body), TrailerValue(trailer);
    UpdateAppend(PRESET, body, trailer);
    UpdateIsFeed(r, trailer);
    assert BitsOf(trailer) == Unpack(w, 16) by {
      hide *;
      TwoBytes(trailer);
    }
    FeedUnpack(r, w, 16);
    DropAll(w);
    PlusGroup(ShiftN(Plus(r, w), 16), 0, 0);
    ShiftNZero(Plus(r, w), 16);
    PlusGroup(r, w, 0);
  }

  lemma TwoBytes(t: seq<byte>)
    requires |t| == 2
    ensures BitsOf(t) == Unpack(TrailerValue(t), 16)
  {
    hide Unpack, Widen, Word;
    UnpackWord(t[0], t[1]);
    assert BitsOf(t[1..]) == Unpack(Widen(t[1]), 8) + BitsOf([]) by { assert t[1..][1..] == []; }
  }
}
