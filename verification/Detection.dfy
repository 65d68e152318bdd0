/** Which error patterns the checksum notices. */
module Detection {
  import opened Bits
  import opened Checksum
  import opened Division
  import opened Order

  /** All set bits lie in a window of 16 bits that starts at `lo`, and there is one. */
  ghost predicate Burst(m: bits, lo: nat) {
    Weight(m) > 0 && forall i :: 0 <= i < |m| && m[i] ==> lo <= i < lo + 16
  }

  lemma AllClear(m: bits)
    requires forall i :: 0 <= i < |m| ==> !m[i]
    ensures m == Zeros(|m|)
  {
    forall i | 0 <= i < |m|
      ensures m[i] == Zeros(|m|)[i]
    {
      ZerosClear(|m|, i);
    }
  }

  lemma FeedShifted(n: nat, m: bits)
    ensures Feed(0, Zeros(n) + m) == Feed(0, m)
  {
    FeedAppend(0, Zeros(n), m);
    FeedZeros(0, n);
    ShiftNZero(0, n);
  }

  lemma FeedTrailing(r: bv16, m: bits, n: nat)
    ensures Feed(r, m + Zeros(n)) == 0 <==> Feed(r, m) == 0
  {
    FeedAppend(r, m, Zeros(n));
    FeedZeros(Feed(r, m), n);
    ShiftNZero(Feed(r, m), n);
  }

  // ---- bursts ----

  lemma LoadTop(v: bv16, b: bool)
    ensures Unpack(Plus(Half(v), if b then 0x8000 else 0), 16) == Unpack(v, 16)[1..] + [b]
  {
    hide Plus, Half, Unpack, Drop, XorBits;
    var h := Half(v);
    UnpackTail(v);
    DropAll(v);
    UnpackTop(h);
    if b {
      UnpackPlus(h, 0x8000, 16);
      UnpackTopBit();
      var u := Unpack(h, 15);
      XorAppend(u, Zeros(15), [false], [true]);
      XorGroup(u, u);
      OneTop();
    } else {
      PlusGroup(h, 0, 0);
    }
  }

  lemma OneTop()
    ensures XorBits([false], [true]) == [true]
  {}

  lemma UnpackTopBit()
    ensures Unpack(0x8000, 16) == Zeros(15) + [true]
  {
    UnpackSplit(0x8000, 8, 8);
    assert Drop(0x8000, 8) == 0x80;
    assert Unpack(0x8000, 8) == Zeros(8);
    assert Unpack(0x80, 8) == Zeros(7) + [true];
    ZerosAppend(8, 7);
  }

  /** Every string of 16 bits is the content of some register. */
  lemma Load(w: bits) returns (v: bv16)
    requires |w| == 16
    ensures Unpack(v, 16) == w
  {
    hide Plus, Half, Unpack;
    v := 0;
    for i := 0 to 16
      invariant Unpack(v, 16) == Unpack(0, 16)[i..] + w[..i]
    {
      LoadTop(v, w[i]);
      var u := Unpack(0, 16);
      assert (u[i..] + w[..i])[1..] + [w[i]] == u[i + 1..] + w[..i + 1];
      v := Plus(Half(v), if w[i] then 0x8000 else 0);
    }
  }

  lemma WindowNoticed(w: bits)
    requires |w| == 16 && w != Zeros(16)
    ensures Feed(0, w) != 0
  {
    hide Plus, Feed, Unpack;
    var v := Load(w);
    UnpackZero(16);
    FeedUnpack(0, v, 16);
    DropAll(v);
    PlusGroup(v, 0, 0);
    PlusGroup(ShiftN(v, 16), 0, 0);
    ShiftNZero(v, 16);
  }

  /** A burst of at most 16 bits never goes unnoticed, wherever it starts. */
  lemma BurstNoticed(m: bits, lo: nat)
    requires Burst(m, lo)
    ensures Feed(0, m) != 0
  {
    hide Feed;
    var w := BurstShape(m, lo);
    WindowNoticed(w);
    FeedTrailing(0, m, 16);
    FeedTrailing(0, Zeros(lo) + w, |m| - lo);
    FeedShifted(lo, w);
  }

  lemma BurstShape(m: bits, lo: nat) returns (w: bits)
    requires Burst(m, lo)
    ensures lo <= |m| && |w| == 16 && w != Zeros(16)
    ensures m + Zeros(16) == Zeros(lo) + w + Zeros(|m| - lo)
  {
    hide Weight, Zeros;
    var k := FirstSet(m);
    var p := m + Zeros(16);
    w := p[lo..lo + 16];
    assert w[k - lo] == m[k];
    ZerosClear(16, k - lo);
    forall i | |m| <= i < |p|
      ensures !p[i]
    {
      ZerosClear(16, i - |m|);
    }
    AllClear(p[..lo]);
    AllClear(p[lo + 16..]);
    assert p == (p[..lo] + w) + p[lo + 16..];
  }

  // ---- one, two and three bits ----

  /** An odd number of wrong bits never goes unnoticed. */
  lemma OddNoticed(m: bits)
    requires Weight(m) % 2 == 1
    ensures Feed(0, m) != 0
  {
    hide Feed, Unpack;
    OddIsOddWeight(m);
    FeedParity(0, m);
    UnpackZero(16);
    OddZeros(16);
  }

  /** Two wrong bits go unnoticed iff their distance is a multiple of 32767. */
  lemma TwoBitErrors(m: bits, i: nat, j: nat)
    requires i < j < |m| && m[i] && m[j] && Weight(m) == 2
    ensures Feed(0, m) == 0 <==> (j - i) % ORDER == 0
  {
    hide Feed, Zeros;
    var d := j - i;
    TwoBitShape(m, i, j);
    FeedShifted(i, [true] + Zeros(d - 1) + [true] + Zeros(|m| - j - 1));
    assert m == Zeros(i) + ([true] + Zeros(d - 1) + [true] + Zeros(|m| - j - 1));
    FeedTrailing(0, [true] + Zeros(d - 1) + [true], |m| - j - 1);
    FeedAppend(0, [true] + Zeros(d - 1), [true]);
    FeedAppend(0, [true], Zeros(d - 1));
    FeedOne(0);
    FeedZeros(Feed(0, [true]), d - 1);
    ShiftNAdd(1, 1, d - 1);
    var s := ShiftN(1, d);
    FeedOne(s);
    ContentRecurs(1, d);
  }

  lemma FeedOne(r: bv16)
    ensures Feed(0, [true]) == ShiftN(1, 1)
    ensures Feed(r, [true]) == 0 <==> r == 1
  {
    assert [true][1..] == [];
    assert Plus(0, 1) == 1;
    ShiftZero(Plus(r, 1));
    PlusGroup(r, 1, 0);
  }

  lemma TwoBitShape(m: bits, i: nat, j: nat)
    requires i < j < |m| && m[i] && m[j] && Weight(m) == 2
    ensures m == Zeros(i) + [true] + Zeros(j - i - 1) + [true] + Zeros(|m| - j - 1)
  {
    hide Weight;
    var p := FirstSet(m);
    var rest := m[p + 1..];
    var q := FirstSet(rest);
    var tail := rest[q + 1..];
    NoWeight(tail);
    assert m == Zeros(p) + [true] + Zeros(q) + [true] + Zeros(|tail|);
    forall k | 0 <= k < |m| && k != p && k != p + 1 + q
      ensures !m[k]
    {
      if k < p {
        ZerosClear(p, k);
      } else if k < p + 1 + q {
        ZerosClear(q, k - p - 1);
      } else {
        ZerosClear(|tail|, k - p - q - 2);
      }
    }
  }

  /** In at most 32767 bits, one, two or three wrong bits never go unnoticed. */
  lemma {:induction false} SmallErrorsNoticed(m: bits)
    requires 1 <= Weight(m) <= 3 && |m| <= ORDER
    ensures Feed(0, m) != 0
  {
    hide Feed, Weight;
    if Weight(m) == 2 {
      var p := FirstSet(m);
      var q := FirstSet(m[p + 1..]);
      TwoBitErrors(m, p, p + 1 + q);
    } else {
      OddNoticed(m);
    }
  }
}
