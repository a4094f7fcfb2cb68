/**
 CRC-32C: the slicing hash over 32-bit words with the Castagnoli polynomial (Appendix B
 of RFC 4960), started from any value and without a final inversion.  A word is the
 sequence of its bits, least significant first.
 */
module Crc32c {
  import opened Crc

  type Word = w: seq<bool> | |w| == 32 witness seq(32, i => false)

  /** The Castagnoli polynomial 0x82F63B78, bits reflected. */
  const POLY: seq<bool> :=
    [false, false, false, true, true, true, true, false,
     true, true, false, true, true, true, false, false,
     false, true, true, false, true, true, true, true,
     false, true, false, false, false, false, false, true]

  function Clear(n: nat): (r: seq<bool>)
    ensures |r| == n && forall i :: 0 <= i < n ==> !r[i]
  {
    seq(n, i => false)
  }

  function Xor(a: Word, b: Word): (r: Word)
    ensures forall i :: 0 <= i < 32 ==> r[i] == (a[i] != b[i])
  {
    seq(32, i requires 0 <= i < 32 => a[i] != b[i])
  }

  /** w >> k */
  function Down(w: Word, k: nat): (r: Word)
    requires k <= 32
  {
    w[k..] + Clear(k)
  }

  /** w << k */
  function Up(w: Word, k: nat): (r: Word)
    requires k <= 32
  {
    Clear(k) + w[..32 - k]
  }

  /** The register after one zero bit. */
  function Shift(c: Word): (r: Word)
    ensures forall i :: 0 <= i < 32 ==> r[i] == ((i < 31 && c[i + 1]) != (c[0] && POLY[i]))
  {
    Xor(Down(c, 1), if c[0] then POLY else Clear(32))
  }

  function Low(w: Word): (r: Word)
    ensures forall i :: 0 <= i < 32 ==> r[i] == (i < 8 && w[i])
  {
    w[..8] + Clear(24)
  }

  function High(w: Word): (r: Word)
    ensures forall i :: 0 <= i < 32 ==> r[i] == (i < 24 && w[i + 8])
  {
    Down(w, 8)
  }

  /** Four bytes as a little-endian word. */
  function Load(b0: Word, b1: Word, b2: Word, b3: Word): (r: Word)
  {
    b0[..8] + b1[..8] + b2[..8] + b3[..8]
  }

  function Castagnoli(): Words<Word>
  {
    Words<Word>.Words(8, Clear(32), Xor, Shift, Low, High, Load)
  }

  // ---------------------------------------------------------------- the laws hold

  lemma XorLawAt(a: Word, b: Word, c: Word)
    ensures XorLaw(Castagnoli(), a, b, c)
  {
    assert Xor(a, b) == Xor(b, a);
    assert Xor(Xor(a, b), c) == Xor(a, Xor(b, c));
    assert Xor(a, Clear(32)) == a;
    assert Xor(a, a) == Clear(32);
  }

  lemma StepLawAt(a: Word, b: Word)
    ensures StepLaw(Castagnoli(), a, b)
  {
    assert Shift(Xor(a, b)) == Xor(Shift(a), Shift(b));
  }

  lemma SplitLawAt(x: Word, y: Word)
    ensures SplitLaw(Castagnoli(), x, y)
  {
    assert Low(Xor(x, y)) == Xor(Low(x), Low(y));
    assert High(Xor(x, y)) == Xor(High(x), High(y));
  }

  lemma LoadLawAt(b0: Word, b1: Word, b2: Word, b3: Word)
    ensures LoadLaw(Castagnoli(), b0, b1, b2, b3)
  {
    var w := Load(b0, b1, b2, b3);
    assert Low(w) == Low(b0);
    assert Low(High(w)) == Low(b1);
    assert Low(High(High(w))) == Low(b2);
    assert Low(High(High(High(w)))) == Low(b3);
  }

  lemma ShiftUp(r: Word, k: nat)
    requires 1 <= k <= 8 && forall i :: 24 <= i < 32 ==> !r[i]
    ensures Shift(Up(r, k)) == Up(r, k - 1)
  {
  }

  /** Bits moved up come down again in as many steps. */
  lemma {:induction false} StepsOut(m: Words<Word>, r: Word, k: nat)
    requires m == Castagnoli() && k <= 8 && forall i :: 24 <= i < 32 ==> !r[i]
    ensures Bits(m, Up(r, k), k) == r
    decreases k
  {
    if k == 0 {
      assert Up(r, 0) == r;
    } else {
      ShiftUp(r, k);
      assert m.step(Up(r, k)) == Up(r, k - 1);
      StepsOut(m, r, k - 1);
    }
  }

  lemma Parts(x: Word)
    ensures Xor(Low(x), Up(High(x), 8)) == x
    ensures High(High(High(High(x)))) == Clear(32) && Low(Low(x)) == Low(x) && High(Low(x)) == Clear(32)
  {
  }

  /** Eight steps split into the low byte and the rest. */
  lemma ByteSteps(m: Words<Word>, x: Word, lo: Word, up: Word, hi: Word)
    requires StepLinear(m) && x == m.xor(lo, up) && Bits(m, up, m.octet) == hi
    ensures Bits(m, x, m.octet) == m.xor(Bits(m, lo, m.octet), hi)
  {
    BitsLinear(m, lo, up, m.octet);
  }

  lemma ByteLawAt(x: Word)
    requires StepLinear(Castagnoli())
    ensures ByteLaw(Castagnoli(), x)
  {
    var m := Castagnoli();
    Parts(x);
    StepsOut(m, High(x), m.octet);
    ByteSteps(m, x, Low(x), Up(High(x), 8), High(x));
  }

  lemma LawsHold()
    ensures Laws(Castagnoli())
  {
    var m := Castagnoli();
    forall a, b, c ensures XorLaw(m, a, b, c) { XorLawAt(a, b, c); }
    forall a, b ensures StepLaw(m, a, b) { StepLawAt(a, b); }
    forall x ensures ByteLaw(m, x) { ByteLawAt(x); }
    forall x, y ensures SplitLaw(m, x, y) { SplitLawAt(x, y); }
    forall b0, b1, b2, b3 ensures LoadLaw(m, b0, b1, b2, b3) { LoadLawAt(b0, b1, b2, b3); }
    assert Low(Clear(32)) == Clear(32);
  }

  // ---------------------------------------------------------------- what padding does to the hash

  /** POLY, and clear beyond its bits. */
  function Poly(i: nat): bool { i < 32 && POLY[i] }

  /** The bits of the register that one zero bit leaves as it is, from the top. */
  function Ladder(i: nat): bool
    decreases 32 - i
  {
    i < 32 && Ladder(i + 1) != Poly(i)
  }

  function Ladder2(i: nat): bool
    decreases 32 - i
  {
    i < 32 && Ladder2(i + 1) != Ladder(i)
  }

  /** 0xFCA42DAF */
  function FixedPoint(): (v: Word)
    ensures forall i :: 0 <= i < 32 ==> v[i] == Ladder(i)
  {
    seq(32, i requires 0 <= i < 32 => Ladder(i))
  }

  lemma PolyBits()
    ensures Poly(31) && !Poly(30) && !Poly(29) && !Poly(28) && !Poly(27) && !Poly(26) && Poly(25) && !Poly(24)
    ensures Poly(23) && Poly(22) && Poly(21) && Poly(20) && !Poly(19) && Poly(18) && Poly(17) && !Poly(16)
    ensures !Poly(15) && !Poly(14) && Poly(13) && Poly(12) && Poly(11) && !Poly(10) && Poly(9) && Poly(8)
    ensures !Poly(7) && Poly(6) && Poly(5) && Poly(4) && Poly(3) && !Poly(2) && !Poly(1) && !Poly(0)
  {
  }

  lemma LadderBits()
    ensures Ladder(0)
    ensures Ladder(31) && Ladder(30) && Ladder(29) && Ladder(28)
    ensures Ladder(27) && Ladder(26) && !Ladder(25) && !Ladder(24)
    ensures Ladder(23) && !Ladder(22) && Ladder(21) && !Ladder(20)
    ensures !Ladder(19) && Ladder(18) && !Ladder(17) && !Ladder(16)
    ensures !Ladder(15) && !Ladder(14) && Ladder(13) && !Ladder(12)
    ensures Ladder(11) && Ladder(10) && !Ladder(9) && Ladder(8)
    ensures Ladder(7) && !Ladder(6) && Ladder(5) && !Ladder(4) && Ladder(3) && Ladder(2) && Ladder(1) && Ladder(0)
  {
    PolyBits();
    assert !Ladder(32);
    assert Ladder(31) && Ladder(30) && Ladder(29) && Ladder(28);
    assert Ladder(27) && Ladder(26) && !Ladder(25) && !Ladder(24);
    assert Ladder(23) && !Ladder(22) && Ladder(21) && !Ladder(20);
    assert !Ladder(19) && Ladder(18) && !Ladder(17) && !Ladder(16);
    assert !Ladder(15) && !Ladder(14) && Ladder(13) && !Ladder(12);
    assert Ladder(11) && Ladder(10) && !Ladder(9) && Ladder(8);
    assert Ladder(7) && !Ladder(6) && Ladder(5) && !Ladder(4) && Ladder(3) && Ladder(2) && Ladder(1) && Ladder(0);
  }

  lemma Ladder2Ends()
    ensures Ladder2(0)
  {
    LadderBits();
    assert !Ladder2(32);
    assert Ladder2(31) && !Ladder2(30) && Ladder2(29) && !Ladder2(28);
    assert Ladder2(27) && !Ladder2(26) && !Ladder2(25) && !Ladder2(24);
    assert Ladder2(23) && Ladder2(22) && !Ladder2(21) && !Ladder2(20);
    assert !Ladder2(19) && Ladder2(18) && Ladder2(17) && Ladder2(16);
    assert Ladder2(15) && Ladder2(14) && !Ladder2(13) && !Ladder2(12);
    assert Ladder2(11) && !Ladder2(10) && !Ladder2(9) && Ladder2(8);
    assert !Ladder2(7) && !Ladder2(6) && Ladder2(5) && Ladder2(4);
    assert !Ladder2(3) && Ladder2(2) && !Ladder2(1) && Ladder2(0);
  }

  /** A register that one zero bit leaves as it is follows the ladder. */
  lemma {:induction false} FixedBits(c: Word, i: nat)
    requires i < 32 && Shift(c) == c
    ensures c[i] == (c[0] && Ladder(i))
    decreases 32 - i
  {
    assert Shift(c)[i] == c[i];
    if i == 31 {
      assert !Ladder(32);
    } else {
      FixedBits(c, i + 1);
    }
  }

  /** A register that one zero bit changes by the ladder would follow both ladders. */
  lemma {:induction false} ChangedBits(c: Word, i: nat)
    requires i < 32
    ensures Xor(Shift(c), c) == FixedPoint() ==> c[i] == ((c[0] && Ladder(i)) != Ladder2(i))
    decreases 32 - i
  {
    if Xor(Shift(c), c) == FixedPoint() {
      assert Xor(Shift(c), c)[i] == Ladder(i);
    }
    if i == 31 {
      assert !Ladder(32) && !Ladder2(32);
    } else {
      ChangedBits(c, i + 1);
    }
  }

  lemma OneBit(c: Word)
    ensures Shift(c) == c ==> c == Clear(32) || c == FixedPoint()
    ensures Xor(Shift(c), c) != FixedPoint()
  {
    LadderBits();
    if Shift(c) == c {
      forall i | 0 <= i < 32 ensures c[i] == (c[0] && Ladder(i)) { FixedBits(c, i); }
    }
    ChangedBits(c, 0);
    Ladder2Ends();
  }

  lemma FixedPointStays()
    ensures Shift(FixedPoint()) == FixedPoint()
  {
    LadderBits();
    assert !Ladder(32);
    forall i | 0 <= i < 32 ensures Shift(FixedPoint())[i] == FixedPoint()[i] { }
  }

  // Three zero bits: the step S satisfies S^3 + 1 == (S + 1)(S^2 + S + 1).

  function Quad(c: Word): Word
  {
    Xor(Xor(Shift(Shift(c)), Shift(c)), c)
  }

  function RungA(i: nat): bool
    decreases 32 - i
  {
    i < 32 && (RungA(i + 1) != RungA(i + 2)) != (Poly(i) != Poly(i + 1))
  }

  function RungB(i: nat): bool
    decreases 32 - i
  {
    i < 32 && (RungB(i + 1) != RungB(i + 2)) != Poly(i)
  }

  lemma RungEnds()
    ensures !RungA(0) && RungA(1) && RungB(0) && RungB(1)
  {
    PolyBits();
    assert !RungA(33) && !RungA(32) && !RungB(33) && !RungB(32) && !Poly(32);
    assert RungA(31) && !RungA(30) && RungA(29) && RungA(28) && !RungA(27) && RungA(26) && !RungA(25) && !RungA(24);
    assert RungA(23) && RungA(22) && !RungA(21) && RungA(20) && !RungA(19) && !RungA(18) && !RungA(17) && RungA(16);
    assert RungA(15) && !RungA(14) && !RungA(13) && !RungA(12) && !RungA(11) && RungA(10) && !RungA(9) && RungA(8);
    assert !RungA(7) && !RungA(6) && !RungA(5) && !RungA(4) && !RungA(3) && RungA(2) && RungA(1) && !RungA(0);
    assert RungB(31) && RungB(30) && !RungB(29) && RungB(28) && RungB(27) && !RungB(26) && !RungB(25) && !RungB(24);
    assert RungB(23) && !RungB(22) && !RungB(21) && RungB(20) && RungB(19) && RungB(18) && RungB(17) && !RungB(16);
    assert RungB(15) && RungB(14) && RungB(13) && RungB(12) && RungB(11) && !RungB(10) && !RungB(9) && RungB(8);
    assert RungB(7) && RungB(6) && RungB(5) && RungB(4) && RungB(3) && !RungB(2) && RungB(1) && RungB(0);
  }

  /** The bits of a register that S^2 + S + 1 sends to zero, in terms of two of them. */
  lemma {:induction false} QuadBits(c: Word, i: nat)
    requires Quad(c) == Clear(32)
    ensures i < 32 ==> c[i] == ((c[0] && RungA(i)) != (Shift(c)[0] && RungB(i)))
    decreases 32 - i
  {
    if i >= 32 {
    } else {
      QuadBits(c, i + 1);
      QuadBits(c, i + 2);
      assert Quad(c)[i] == Clear(32)[i];
      assert Shift(Shift(c))[i] == ((i < 31 && Shift(c)[i + 1]) != (Shift(c)[0] && Poly(i)));
      assert i < 31 ==> Shift(c)[i + 1] == ((i < 30 && c[i + 2]) != (c[0] && Poly(i + 1)));
    }
  }

  lemma QuadZero(c: Word)
    requires Quad(c) == Clear(32)
    ensures c == Clear(32)
  {
    RungEnds();
    PolyBits();
    QuadBits(c, 0);
    QuadBits(c, 1);
    assert !c[0] && !Shift(c)[0];
    forall i | 0 <= i < 32 ensures !c[i] { QuadBits(c, i); }
  }

  lemma FixedOnlyOne(m: Words<Word>)
    requires m == Castagnoli()
    ensures FixedOnly(m, FixedPoint(), 1)
  {
    forall c
      ensures (Diff(m, c, 1) == m.zero ==> c == m.zero || c == FixedPoint()) && Diff(m, c, 1) != FixedPoint()
    {
      assert Bits(m, c, 1) == Shift(c);
      OneBit(c);
      XorZero(Shift(c), c);
    }
  }

  lemma XorZero(a: Word, b: Word)
    ensures Xor(a, b) == Clear(32) <==> a == b
  {
    if Xor(a, b) == Clear(32) {
      forall i | 0 <= i < 32 ensures a[i] == b[i] { assert !Xor(a, b)[i]; }
    }
    assert a == b ==> Xor(a, b) == Clear(32);
  }

  /** Three steps change a register as one step changes S^2 + S + 1 of it. */
  lemma ThreeIsOneOfQuad(c: Word)
    ensures Xor(Shift(Shift(Shift(c))), c) == Xor(Shift(Quad(c)), Quad(c))
  {
    var s1, s2 := Shift(c), Shift(Shift(c));
    var s3 := Shift(s2);
    StepLawAt(Xor(s2, s1), c);
    StepLawAt(s2, s1);
    assert Shift(Quad(c)) == Xor(Xor(s3, s2), s1);
    assert Xor(Xor(Xor(s3, s2), s1), Xor(Xor(s2, s1), c)) == Xor(s3, c);
  }

  lemma QuadLinear(a: Word, b: Word)
    ensures Quad(Xor(a, b)) == Xor(Quad(a), Quad(b))
  {
    StepLawAt(a, b);
    StepLawAt(Shift(a), Shift(b));
    assert Shift(Xor(a, b)) == Xor(Shift(a), Shift(b));
    assert Shift(Shift(Xor(a, b))) == Xor(Shift(Shift(a)), Shift(Shift(b)));
    XorPairs(Shift(Shift(a)), Shift(Shift(b)), Shift(a), Shift(b), a, b);
  }

  lemma XorPairs(a1: Word, b1: Word, a2: Word, b2: Word, a3: Word, b3: Word)
    ensures Xor(Xor(Xor(a1, b1), Xor(a2, b2)), Xor(a3, b3)) == Xor(Xor(Xor(a1, a2), a3), Xor(Xor(b1, b2), b3))
  {
  }

  /** S^2 + S + 1 takes the values zero and FixedPoint at these registers only. */
  lemma QuadFixed(c: Word)
    requires Quad(c) == FixedPoint()
    ensures c == FixedPoint()
  {
    var v := FixedPoint();
    FixedPointStays();
    assert Quad(v) == v;
    QuadLinear(c, v);
    XorZero(Quad(c), Quad(v));
    QuadZero(Xor(c, v));
    XorZero(c, v);
  }

  lemma FixedOnlyThree(m: Words<Word>)
    requires m == Castagnoli()
    ensures FixedOnly(m, FixedPoint(), 3)
  {
    forall c
      ensures (Diff(m, c, 3) == m.zero ==> c == m.zero || c == FixedPoint()) && Diff(m, c, 3) != FixedPoint()
    {
      assert Bits(m, c, 3) == Shift(Shift(Shift(c)));
      ThreeIsOneOfQuad(c);
      OneBit(Quad(c));
      XorZero(Shift(Quad(c)), Quad(c));
      if Quad(c) == Clear(32) {
        QuadZero(c);
      } else if Quad(c) == FixedPoint() {
        QuadFixed(c);
      }
    }
  }

  lemma FixedPointBits(m: Words<Word>, n: nat)
    requires m == Castagnoli()
    ensures Bits(m, FixedPoint(), n) == FixedPoint()
  {
    FixedPointStays();
    BitsStay(m, FixedPoint(), n);
  }

  /** Doubling the number of bits, from one and from three. */
  lemma FixedOnlyBytes(m: Words<Word>, v: Word, n: nat)
    requires XorLaws(m) && StepLinear(m) && FixedOnly(m, v, 1) && FixedOnly(m, v, 3) && 1 <= n <= 3
    ensures FixedOnly(m, v, 8 * n)
  {
    if n == 3 {
      FixedDouble(m, v, 3);
      FixedDouble(m, v, 6);
      FixedDouble(m, v, 12);
    } else {
      FixedDouble(m, v, 1);
      FixedDouble(m, v, 2);
      FixedDouble(m, v, 4);
      if n == 2 { FixedDouble(m, v, 8); }
    }
  }

  /** One, two or three zero bytes leave a register as it is only at these two values. */
  lemma PaddingFixes(m: Words<Word>, c: Word, n: nat)
    requires m == Castagnoli() && 1 <= n <= 3
    ensures Zeros(m, c, n) == c <==> c == m.zero || c == FixedPoint()
  {
    var v := FixedPoint();
    LawsHold();
    assert FixedOnly(m, v, m.octet * n) by {
      FixedOnlyOne(m);
      FixedOnlyThree(m);
      FixedOnlyBytes(m, v, n);
    }
    FixedPointBits(m, m.octet * n);
    ZerosFix(m, v, c, n);
  }

  /**
   The hash is the CRC-32C register over the data itself exactly if the length is a
   multiple of four, or the register is one of the two values that zeros do not change.
   */
  lemma HashIsRegister(m: Words<Word>, init: Word, data: seq<Word>)
    requires m == Castagnoli()
    ensures Register(m, init, Padded(m, data)) == Register(m, init, data) <==>
            |data| % 4 == 0 || Register(m, init, data) == m.zero || Register(m, init, data) == FixedPoint()
  {
    PaddingFixesAt(m, Register(m, init, data), |data|);
    XorLawsHold(m);
    HashExact(m, FixedPoint(), init, data);
  }

  lemma XorLawsHold(m: Words<Word>)
    requires m == Castagnoli()
    ensures XorLaws(m)
  {
    LawsHold();
  }

  lemma PaddingFixesAt(m: Words<Word>, r: Word, len: nat)
    requires m == Castagnoli()
    ensures len % 4 != 0 ==> (Zeros(m, r, Padding(len)) == r <==> r == m.zero || r == FixedPoint())
  {
    if len % 4 != 0 { PaddingFixes(m, r, Padding(len)); }
  }

  // ---------------------------------------------------------------- data that fails

  lemma ShiftBack(a: Word, b: Word)
    requires Shift(a) == Shift(b)
    ensures a == b
  {
    assert Shift(a)[31] == a[0] && Shift(b)[31] == b[0];
    forall i | 0 <= i < 32
      ensures a[i] == b[i]
    {
      if i > 0 {
        var j := i - 1;
        assert Shift(a)[j] == Shift(b)[j];
      }
    }
  }

  lemma ShiftInjective(m: Words<Word>)
    requires m == Castagnoli()
    ensures StepInjective(m)
  {
    forall a, b | m.step(a) == m.step(b)
      ensures a == b
    {
      ShiftBack(a, b);
    }
  }

  /** A byte is not the fixed point. */
  lemma NotFixed(b: Word)
    requires Low(b) == b
    ensures b != FixedPoint() && Xor(Clear(32), b) == b && Shift(Clear(32)) == Clear(32)
  {
    LadderBits();
    assert !Low(b)[31] && FixedPoint()[31];
  }

  /** From register zero, the hash of every single byte but zero is not the register over it. */
  lemma ByteFails(m: Words<Word>, b: Word)
    requires m == Castagnoli() && IsByte(m, b) && b != m.zero
    ensures Register(m, m.zero, Padded(m, [b])) != Register(m, m.zero, [b])
  {
    ShiftInjective(m);
    NotFixed(b);
    FixedPointStays();
    OneByteMoves(m, b, m.zero);
    OneByteMoves(m, b, FixedPoint());
    HashIsRegister(m, m.zero, [b]);
  }

  /** The byte 0x01, for one. */
  lemma HashOfOneFails(m: Words<Word>, one: Word)
    requires m == Castagnoli() && one == [true] + Clear(31)
    ensures Register(m, m.zero, Padded(m, [one])) != Register(m, m.zero, [one])
  {
    assert Low(one) == one;
    assert one[0] && !m.zero[0];
    ByteFails(m, one);
  }

  /** odp_hash_crc32c at its polynomial. */
  method OdpHashCrc32c(data: seq<Word>, init: Word) returns (crc: Word)
    requires AllBytes(Castagnoli(), data)
    ensures crc == Register(Castagnoli(), init, Padded(Castagnoli(), data))
  {
    LawsHold();
    crc := Hash(Castagnoli(), data, init);
  }
}
