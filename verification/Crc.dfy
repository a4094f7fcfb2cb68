/**
 CRC hashing by slicing: eight table look-ups per eight bytes against the bit-at-a-time
 register.  The argument uses only that the one-bit step is linear over exclusive-or
 and that eight steps undo a shift by eight, so words are left abstract here; the
 Castagnoli instance over 32-bit words is in Crc32c.
 */
module Crc {

  /**
   The word operations of the source.  `octet`: the bits of a byte; `step`: the register
   after one zero bit; `lo(x)`: x & 0xff; `hi(x)`: x >> 8; `word`: four bytes as a
   little-endian word.
   */
  datatype Words<!W> = Words(octet: nat, zero: W, xor: (W, W) -> W, step: W -> W, lo: W -> W, hi: W -> W,
                             word: (W, W, W, W) -> W)

  // The laws, one instance at a time.

  /** Exclusive-or is a commutative group in which every word is its own inverse. */
  ghost predicate XorLaw<W>(m: Words<W>, a: W, b: W, c: W)
  {
    && m.xor(a, b) == m.xor(b, a)
    && m.xor(m.xor(a, b), c) == m.xor(a, m.xor(b, c))
    && m.xor(a, m.zero) == a
    && m.xor(a, a) == m.zero
  }

  ghost predicate StepLaw<W>(m: Words<W>, a: W, b: W)
  {
    m.step(m.xor(a, b)) == m.xor(m.step(a), m.step(b))
  }

  /** Eight steps absorb the low byte and move the other bits down; a word has four bytes. */
  ghost predicate ByteLaw<W>(m: Words<W>, x: W)
  {
    && Bits(m, x, m.octet) == m.xor(Bits(m, m.lo(x), m.octet), m.hi(x))
    && m.hi(m.hi(m.hi(m.hi(x)))) == m.zero
    && m.lo(m.lo(x)) == m.lo(x) && m.hi(m.lo(x)) == m.zero
  }

  ghost predicate SplitLaw<W>(m: Words<W>, x: W, y: W)
  {
    m.lo(m.xor(x, y)) == m.xor(m.lo(x), m.lo(y)) && m.hi(m.xor(x, y)) == m.xor(m.hi(x), m.hi(y))
  }

  ghost predicate LoadLaw<W>(m: Words<W>, b0: W, b1: W, b2: W, b3: W)
  {
    var w := m.word(b0, b1, b2, b3);
    IsByte(m, b0) && IsByte(m, b1) && IsByte(m, b2) && IsByte(m, b3) ==>
      m.lo(w) == b0 && m.lo(m.hi(w)) == b1 && m.lo(m.hi(m.hi(w))) == b2 && m.lo(m.hi(m.hi(m.hi(w)))) == b3
  }

  ghost predicate XorLaws<W(!new)>(m: Words<W>)
  {
    forall a, b, c :: XorLaw(m, a, b, c)
  }

  ghost predicate StepLinear<W(!new)>(m: Words<W>)
  {
    forall a, b :: StepLaw(m, a, b)
  }

  ghost predicate ByteLaws<W(!new)>(m: Words<W>)
  {
    && (forall x :: ByteLaw(m, x))
    && (forall x, y :: SplitLaw(m, x, y))
    && IsByte(m, m.zero)
  }

  ghost predicate LoadLaws<W(!new)>(m: Words<W>)
  {
    forall b0, b1, b2, b3 :: LoadLaw(m, b0, b1, b2, b3)
  }

  ghost predicate Laws<W(!new)>(m: Words<W>)
  {
    XorLaws(m) && StepLinear(m) && ByteLaws(m) && LoadLaws(m)
  }

  lemma Commute<W(!new)>(m: Words<W>, a: W, b: W)
    requires XorLaws(m)
    ensures m.xor(a, b) == m.xor(b, a)
  {
    assert XorLaw(m, a, b, b);
  }

  lemma Associate<W(!new)>(m: Words<W>, a: W, b: W, c: W)
    requires XorLaws(m)
    ensures m.xor(m.xor(a, b), c) == m.xor(a, m.xor(b, c))
  {
    assert XorLaw(m, a, b, c);
  }

  lemma Neutral<W(!new)>(m: Words<W>, a: W)
    requires XorLaws(m)
    ensures m.xor(a, m.zero) == a && m.xor(m.zero, a) == a && m.xor(a, a) == m.zero
  {
    assert XorLaw(m, a, m.zero, a);
  }

  predicate IsByte<W(==)>(m: Words<W>, b: W) { m.lo(b) == b }

  // ---------------------------------------------------------------- the definition

  /** The register after n zero bits. */
  function Bits<W>(m: Words<W>, c: W, n: nat): W
    decreases n
  {
    if n == 0 then c else Bits(m, m.step(c), n - 1)
  }

  lemma {:induction false} BitsStay<W>(m: Words<W>, v: W, n: nat)
    requires m.step(v) == v
    ensures Bits(m, v, n) == v
  {
    if n == 0 {
    } else {
      BitsStay(m, v, n - 1);
    }
  }

  /** The register after n bytes of zeros. */
  function Zeros<W>(m: Words<W>, c: W, n: nat): W
    decreases n
  {
    if n == 0 then c else Zeros(m, Bits(m, c, m.octet), n - 1)
  }

  /** The register after a sequence of bytes. */
  function Register<W>(m: Words<W>, c: W, data: seq<W>): W
    decreases |data|
  {
    if data == [] then c else Register(m, Zeros(m, m.xor(c, data[0]), 1), data[1..])
  }

  /** A zero bit can be taken back: no two registers go to the same one. */
  ghost predicate StepInjective<W(!new)>(m: Words<W>)
  {
    forall a, b :: m.step(a) == m.step(b) ==> a == b
  }

  lemma {:induction false} BitsInjective<W(!new)>(m: Words<W>, a: W, b: W, n: nat)
    requires StepInjective(m) && a != b
    ensures Bits(m, a, n) != Bits(m, b, n)
    decreases n
  {
    if n == 0 {
    } else {
      BitsInjective(m, m.step(a), m.step(b), n - 1);
    }
  }

  /** One byte from register zero ends in a register that stays only if it is that register. */
  lemma OneByteMoves<W(!new)>(m: Words<W>, b: W, v: W)
    requires StepInjective(m) && m.step(v) == v && b != v && m.xor(m.zero, b) == b
    ensures Register(m, m.zero, [b]) != v
  {
    var c := Bits(m, b, m.octet);
    assert [b][0] == b && [b][1..] == [];
    assert Zeros(m, b, 1) == Zeros(m, c, 0) == c;
    assert Register(m, m.zero, [b]) == Register(m, c, []) == c;
    BitsStay(m, v, m.octet);
    BitsInjective(m, b, v, m.octet);
  }

  lemma {:induction false} BitsAdd<W>(m: Words<W>, c: W, i: nat, j: nat)
    ensures Bits(m, c, i + j) == Bits(m, Bits(m, c, i), j)
    decreases i
  {
    if i == 0 {
    } else {
      BitsAdd(m, m.step(c), i - 1, j);
    }
  }

  lemma {:induction false} BitsLinear<W(!new)>(m: Words<W>, a: W, b: W, n: nat)
    requires StepLinear(m)
    ensures Bits(m, m.xor(a, b), n) == m.xor(Bits(m, a, n), Bits(m, b, n))
    decreases n
  {
    if n == 0 {
    } else {
      assert StepLaw(m, a, b);
      BitsLinear(m, m.step(a), m.step(b), n - 1);
    }
  }

  lemma {:induction false} BitsZero<W(!new)>(m: Words<W>, n: nat)
    requires XorLaws(m) && StepLinear(m)
    ensures Bits(m, m.zero, n) == m.zero
    decreases n
  {
    if n == 0 {
    } else {
      assert StepLaw(m, m.zero, m.zero);
      Neutral(m, m.zero);
      Neutral(m, m.step(m.zero));
      BitsZero(m, n - 1);
    }
  }

  lemma {:induction false} ZerosLinear<W(!new)>(m: Words<W>, a: W, b: W, n: nat)
    requires StepLinear(m)
    ensures Zeros(m, m.xor(a, b), n) == m.xor(Zeros(m, a, n), Zeros(m, b, n))
    decreases n
  {
    if n == 0 {
    } else {
      BitsLinear(m, a, b, m.octet);
      ZerosLinear(m, Bits(m, a, m.octet), Bits(m, b, m.octet), n - 1);
    }
  }

  lemma {:induction false} ZerosAdd<W>(m: Words<W>, c: W, i: nat, j: nat)
    ensures Zeros(m, c, i + j) == Zeros(m, Zeros(m, c, i), j)
    decreases i
  {
    if i == 0 {
    } else {
      ZerosAdd(m, Bits(m, c, m.octet), i - 1, j);
    }
  }

  lemma {:induction false} ZerosZero<W(!new)>(m: Words<W>, n: nat)
    requires XorLaws(m) && StepLinear(m)
    ensures Zeros(m, m.zero, n) == m.zero
    decreases n
  {
    if n == 0 {
    } else {
      BitsZero(m, m.octet);
      ZerosZero(m, n - 1);
    }
  }

  /** One byte of zeros absorbs the low byte and moves the rest down. */
  lemma AbsorbByte<W(!new)>(m: Words<W>, x: W, n: nat)
    requires Laws(m)
    ensures Zeros(m, x, 1 + n) == m.xor(Zeros(m, m.lo(x), 1 + n), Zeros(m, m.hi(x), n))
  {
    ZerosAdd(m, x, 1, n);
    ZerosAdd(m, m.lo(x), 1, n);
    assert ByteLaw(m, x);
    ZerosLinear(m, Zeros(m, m.lo(x), 1), m.hi(x), n);
  }

  // ---------------------------------------------------------------- tables

  function FirstTable<W>(m: Words<W>, b: W): W
  {
    Zeros(m, b, 1)
  }

  /** The entry of the next table, from the same entry of the one before. */
  function NextEntry<W>(m: Words<W>, t: W): W
  {
    m.xor(m.hi(t), FirstTable(m, m.lo(t)))
  }

  /** The tables: the first by definition, each next one from the one before. */
  function Table<W>(m: Words<W>, n: nat, b: W): W
  {
    if n == 0 then FirstTable(m, b) else NextEntry(m, Table(m, n - 1, b))
  }

  /** The recurrence of the tables is one more byte of zeros. */
  lemma NextTable<W(!new)>(m: Words<W>, t: W)
    requires Laws(m)
    ensures NextEntry(m, t) == Zeros(m, t, 1)
  {
    assert ByteLaw(m, t);
    Commute(m, m.hi(t), FirstTable(m, m.lo(t)));
  }

  /** Table n holds the register after n + 1 zero bytes. */
  lemma {:induction false} TableIs<W(!new)>(m: Words<W>, n: nat, b: W)
    requires Laws(m)
    ensures Table(m, n, b) == Zeros(m, b, n + 1)
  {
    if n == 0 {
    } else {
      TableIs(m, n - 1, b);
      ZerosAdd(m, b, n, 1);
      NextTable(m, Table(m, n - 1, b));
    }
  }

  // ---------------------------------------------------------------- the fast form

  /** CRC32_UPD */
  function Update<W>(m: Words<W>, crc: W, n: nat): W
    requires n >= 1
  {
    m.xor(Table(m, n, m.lo(crc)), Table(m, n - 1, m.lo(m.hi(crc))))
  }

  /** crc32c_u32 */
  function U32<W>(m: Words<W>, data: W, init: W): W
  {
    var crc := m.xor(init, data);
    m.xor(Update(m, crc, 3), Update(m, m.hi(m.hi(crc)), 1))
  }

  /** crc32c_u64, on the two halves of the word in memory order. */
  function U64<W>(m: Words<W>, d0: W, d1: W, init: W): W
  {
    var crc := m.xor(init, d0);
    m.xor(m.xor(Update(m, crc, 7), Update(m, m.hi(m.hi(crc)), 5)),
          m.xor(Update(m, d1, 3), Update(m, m.hi(m.hi(d1)), 1)))
  }

  /** One look-up takes care of the low byte of x. */
  lemma LookUp<W(!new)>(m: Words<W>, x: W, n: nat)
    requires Laws(m)
    ensures Zeros(m, x, n + 1) == m.xor(Table(m, n, m.lo(x)), Zeros(m, m.hi(x), n))
  {
    TableIs(m, n, m.lo(x));
    AbsorbByte(m, x, n);
  }

  /** Two look-ups take care of the two low bytes of x. */
  lemma UpdateIs<W(!new)>(m: Words<W>, x: W, n: nat)
    requires Laws(m) && n >= 1
    ensures Zeros(m, x, n + 1) == m.xor(Update(m, x, n), Zeros(m, m.hi(m.hi(x)), n - 1))
  {
    LookUp(m, x, n);
    LookUp(m, m.hi(x), n - 1);
    Associate(m, Table(m, n, m.lo(x)), Table(m, n - 1, m.lo(m.hi(x))), Zeros(m, m.hi(m.hi(x)), n - 1));
  }

  /** Two look-ups are enough for the upper half of a word. */
  lemma UpdateUpper<W(!new)>(m: Words<W>, x: W, n: nat)
    requires Laws(m) && n >= 1
    ensures Update(m, m.hi(m.hi(x)), n) == Zeros(m, m.hi(m.hi(x)), n + 1)
  {
    UpdateIs(m, m.hi(m.hi(x)), n);
    assert ByteLaw(m, x);
    ZerosZero(m, n - 1);
    Neutral(m, Update(m, m.hi(m.hi(x)), n));
  }

  /** Four look-ups advance the register by n + 1 bytes. */
  lemma UpdatePair<W(!new)>(m: Words<W>, x: W, n: nat)
    requires Laws(m) && n >= 3
    ensures m.xor(Update(m, x, n), Update(m, m.hi(m.hi(x)), n - 2)) == Zeros(m, x, n + 1)
  {
    UpdateIs(m, x, n);
    UpdateUpper(m, x, n - 2);
  }

  lemma U32Is<W(!new)>(m: Words<W>, data: W, init: W)
    requires Laws(m)
    ensures U32(m, data, init) == Zeros(m, m.xor(init, data), 4)
  {
    UpdatePair(m, m.xor(init, data), 3);
  }

  /** Eight bytes at once are four bytes and then four more. */
  lemma U64Is<W(!new)>(m: Words<W>, d0: W, d1: W, init: W)
    requires Laws(m)
    ensures U64(m, d0, d1, init) == U32(m, d1, U32(m, d0, init))
  {
    var crc := m.xor(init, d0);
    UpdatePair(m, crc, 7);
    UpdatePair(m, d1, 3);
    ZerosAdd(m, crc, 4, 4);
    U32Is(m, d0, init);
    U32Is(m, d1, U32(m, d0, init));
    ZerosLinear(m, Zeros(m, crc, 4), d1, 4);
  }

  // ---------------------------------------------------------------- bytes and words

  /** The low byte of w is consumed with one byte of zeros; the rest of w is still to come. */
  lemma AbsorbData<W(!new)>(m: Words<W>, c: W, w: W, n: nat)
    requires Laws(m)
    ensures Zeros(m, m.xor(c, w), n + 1) == Zeros(m, m.xor(Zeros(m, m.xor(c, m.lo(w)), 1), m.hi(w)), n)
  {
    OneByte(m, c, w);
    ZerosAdd(m, m.xor(c, w), 1, n);
  }

  lemma OneByte<W(!new)>(m: Words<W>, c: W, w: W)
    requires Laws(m)
    ensures Zeros(m, m.xor(c, w), 1) == m.xor(Zeros(m, m.xor(c, m.lo(w)), 1), m.hi(w))
  {
    var x, y := m.xor(c, w), m.xor(c, m.lo(w));
    var z := Zeros(m, m.xor(m.lo(c), m.lo(w)), 1);
    assert Zeros(m, x, 1) == m.xor(z, m.xor(m.hi(c), m.hi(w))) by {
      assert ByteLaw(m, x) && SplitLaw(m, c, w);
    }
    assert Zeros(m, y, 1) == m.xor(z, m.hi(c)) by {
      assert ByteLaw(m, y) && SplitLaw(m, c, m.lo(w)) && ByteLaw(m, w);
      Neutral(m, m.hi(c));
    }
    Associate(m, z, m.hi(c), m.hi(w));
  }

  /** Four bytes of the definition are one word of the register. */
  lemma RegisterWord<W(!new)>(m: Words<W>, c: W, d: seq<W>)
    requires Laws(m) && |d| == 4 && AllBytes(m, d)
    ensures Register(m, c, d) == U32(m, m.word(d[0], d[1], d[2], d[3]), c)
  {
    assert LoadLaw(m, d[0], d[1], d[2], d[3]);
    var w := m.word(d[0], d[1], d[2], d[3]);
    var w1, w2, w3 := m.hi(w), m.hi(m.hi(w)), m.hi(m.hi(m.hi(w)));
    var c1 := Zeros(m, m.xor(c, d[0]), 1);
    var c2 := Zeros(m, m.xor(c1, d[1]), 1);
    var c3 := Zeros(m, m.xor(c2, d[2]), 1);
    var c4 := Zeros(m, m.xor(c3, d[3]), 1);
    assert Zeros(m, m.xor(c, w), 4) == Zeros(m, m.xor(c1, w1), 3) by { AbsorbData(m, c, w, 3); }
    assert Zeros(m, m.xor(c1, w1), 3) == Zeros(m, m.xor(c2, w2), 2) by { AbsorbData(m, c1, w1, 2); }
    assert Zeros(m, m.xor(c2, w2), 2) == Zeros(m, m.xor(c3, w3), 1) by { AbsorbData(m, c2, w2, 1); }
    assert Zeros(m, m.xor(c3, w3), 1) == c4 by { LastByte(m, c3, w, d[3]); }
    U32Is(m, w, c);
    FourSteps(m, c, d);
  }

  lemma LastByte<W(!new)>(m: Words<W>, c: W, w: W, b: W)
    requires Laws(m) && m.lo(m.hi(m.hi(m.hi(w)))) == b
    ensures Zeros(m, m.xor(c, m.hi(m.hi(m.hi(w)))), 1) == Zeros(m, m.xor(c, b), 1)
  {
    var w3 := m.hi(m.hi(m.hi(w)));
    OneByte(m, c, w3);
    assert ByteLaw(m, w);
    Neutral(m, Zeros(m, m.xor(c, b), 1));
  }

  lemma FourSteps<W>(m: Words<W>, c: W, d: seq<W>)
    requires |d| == 4
    ensures var c1 := Zeros(m, m.xor(c, d[0]), 1);
            var c2 := Zeros(m, m.xor(c1, d[1]), 1);
            var c3 := Zeros(m, m.xor(c2, d[2]), 1);
            Register(m, c, d) == Zeros(m, m.xor(c3, d[3]), 1)
  {
    var c1 := Zeros(m, m.xor(c, d[0]), 1);
    var c2 := Zeros(m, m.xor(c1, d[1]), 1);
    var c3 := Zeros(m, m.xor(c2, d[2]), 1);
    assert Register(m, c, d) == Register(m, c1, d[1..]);
    assert Register(m, c1, d[1..]) == Register(m, c2, d[2..]) by { assert d[1..][1..] == d[2..]; }
    assert Register(m, c2, d[2..]) == Register(m, c3, d[3..]) by { assert d[2..][1..] == d[3..]; }
    var c4 := Zeros(m, m.xor(c3, d[3]), 1);
    assert Register(m, c3, d[3..]) == Register(m, c4, []) by { assert d[3..][0] == d[3] && d[3..][1..] == []; }
  }

  ghost predicate AllBytes<W>(m: Words<W>, d: seq<W>)
  {
    forall i :: 0 <= i < |d| ==> IsByte(m, d[i])
  }

  lemma {:induction false} RegisterConcat<W>(m: Words<W>, c: W, a: seq<W>, b: seq<W>)
    ensures Register(m, c, a + b) == Register(m, Register(m, c, a), b)
    decreases |a|
  {
    if a == [] {
      assert a + b == b;
    } else {
      RegisterConcat(m, Zeros(m, m.xor(c, a[0]), 1), a[1..], b);
      assert (a + b)[1..] == a[1..] + b;
    }
  }

  lemma RegisterPair<W(!new)>(m: Words<W>, c: W, d: seq<W>)
    requires Laws(m) && |d| == 8 && AllBytes(m, d)
    ensures Register(m, c, d) == U64(m, m.word(d[0], d[1], d[2], d[3]), m.word(d[4], d[5], d[6], d[7]), c)
  {
    RegisterConcat(m, c, d[..4], d[4..]);
    assert d == d[..4] + d[4..];
    RegisterWord(m, c, d[..4]);
    RegisterWord(m, Register(m, c, d[..4]), d[4..]);
    U64Is(m, m.word(d[0], d[1], d[2], d[3]), m.word(d[4], d[5], d[6], d[7]), c);
  }

  // ---------------------------------------------------------------- the hash

  /** How many zero bytes the hash adds. */
  function Padding(n: nat): nat { (4 - n % 4) % 4 }

  function ZeroBytes<W>(m: Words<W>, n: nat): (r: seq<W>)
    ensures |r| == n && forall i :: 0 <= i < n ==> r[i] == m.zero
  {
    seq(n, i => m.zero)
  }

  function Padded<W>(m: Words<W>, data: seq<W>): seq<W>
  {
    data + ZeroBytes(m, Padding(|data|))
  }

  lemma EightMore<W(!new)>(m: Words<W>, c: W, data: seq<W>, pd: nat)
    requires Laws(m) && AllBytes(m, data) && pd + 8 <= |data|
    ensures Register(m, c, data[..pd + 8]) ==
            U64(m, m.word(data[pd], data[pd + 1], data[pd + 2], data[pd + 3]),
                   m.word(data[pd + 4], data[pd + 5], data[pd + 6], data[pd + 7]), Register(m, c, data[..pd]))
  {
    var d := data[pd..pd + 8];
    RegisterConcat(m, c, data[..pd], d);
    assert data[..pd] + d == data[..pd + 8];
    RegisterPair(m, Register(m, c, data[..pd]), d);
  }

  lemma PaddingOfRest(n: nat, q: nat)
    requires 8 * q <= n
    ensures Padding(n - 8 * q) == Padding(n)
  {
    var k := n / 4 - 2 * q;
    assert n - 8 * q == 4 * k + n % 4;
    assert (n - 8 * q) % 4 == n % 4;
  }

  lemma PadTail<W>(m: Words<W>, c: W, data: seq<W>, q: nat)
    requires 8 * q <= |data|
    ensures Register(m, Register(m, c, data[..8 * q]), Padded(m, data[8 * q..])) == Register(m, c, Padded(m, data))
  {
    var pd := 8 * q;
    RegisterConcat(m, c, data[..pd], Padded(m, data[pd..]));
    PaddingOfRest(|data|, q);
    assert data[..pd] + Padded(m, data[pd..]) == Padded(m, data);
  }

  /** One iteration of the loop. */
  method Eight<W(!new)>(m: Words<W>, data: seq<W>, pd: nat, crc: W, ghost init: W) returns (r: W)
    requires Laws(m) && AllBytes(m, data) && pd + 8 <= |data| && crc == Register(m, init, data[..pd])
    ensures r == Register(m, init, data[..pd + 8])
  {
    EightMore(m, init, data, pd);
    r := U64(m, m.word(data[pd], data[pd + 1], data[pd + 2], data[pd + 3]),
                m.word(data[pd + 4], data[pd + 5], data[pd + 6], data[pd + 7]), crc);
  }

  /** odp_hash_crc32c: eight bytes at a time, then the tail by a switch that falls through. */
  method Hash<W(!new)>(m: Words<W>, data: seq<W>, init: W) returns (crc: W)
    requires Laws(m) && AllBytes(m, data)
    ensures crc == Register(m, init, Padded(m, data))
  {
    crc := init;
    var q := |data| / 8;
    var pd := 0;
    for i := 0 to q
      invariant pd == 8 * i && 8 * q <= |data| < 8 * q + 8
      invariant crc == Register(m, init, data[..pd])
    {
      crc := Eight(m, data, pd, crc, init);
      pd := pd + 8;
    }
    PadTail(m, init, data, q);
    crc := Tail(m, data[pd..], crc);
  }

  /** The switch on the number of bytes left. */
  method Tail<W(!new)>(m: Words<W>, d: seq<W>, init: W) returns (crc: W)
    requires Laws(m) && AllBytes(m, d) && |d| < 8
    ensures crc == Register(m, init, Padded(m, d))
  {
    crc := init;
    var n := |d|;
    ghost var p := Padded(m, d);
    assert AllBytes(m, p);
    if n >= 5 {
      var b5, b6 := m.zero, m.zero;
      if n == 7 { b6 := d[6]; }
      if n >= 6 { b5 := d[5]; }
      RegisterPair(m, init, p);
      crc := U64(m, m.word(d[0], d[1], d[2], d[3]), m.word(d[4], b5, b6, m.zero), crc);
    } else if n == 4 {
      RegisterWord(m, init, p);
      crc := U32(m, m.word(d[0], d[1], d[2], d[3]), crc);
    } else if n >= 1 {
      var b1, b2 := m.zero, m.zero;
      if n == 3 { b2 := d[2]; }
      if n >= 2 { b1 := d[1]; }
      RegisterWord(m, init, p);
      crc := U32(m, m.word(d[0], b1, b2, m.zero), crc);
    }
  }

  /** Zero bytes after the data advance the register by as many bytes of zeros. */
  lemma {:induction false} RegisterZeros<W(!new)>(m: Words<W>, c: W, n: nat)
    requires XorLaws(m)
    ensures Register(m, c, ZeroBytes(m, n)) == Zeros(m, c, n)
    decreases n
  {
    if n == 0 {
    } else {
      Neutral(m, c);
      assert ZeroBytes(m, n)[1..] == ZeroBytes(m, n - 1);
      RegisterZeros(m, Zeros(m, c, 1), n - 1);
      ZerosAdd(m, c, 1, n - 1);
    }
  }

  /** The hash is the register over the data itself exactly if the padding leaves it fixed. */
  lemma PaddingEffect<W(!new)>(m: Words<W>, c: W, data: seq<W>)
    requires XorLaws(m)
    ensures Register(m, c, Padded(m, data)) == Zeros(m, Register(m, c, data), Padding(|data|))
  {
    RegisterConcat(m, c, data, ZeroBytes(m, Padding(|data|)));
    RegisterZeros(m, Register(m, c, data), Padding(|data|));
  }

  // ---------------------------------------------------------------- registers that zeros leave fixed

  /** How k zero bits change the register. */
  function Diff<W>(m: Words<W>, c: W, k: nat): W
  {
    m.xor(Bits(m, c, k), c)
  }

  /** Only zero and v survive k zero bits, and no register changes by v. */
  ghost predicate FixedOnly<W(!new)>(m: Words<W>, v: W, k: nat)
  {
    forall c :: (Diff(m, c, k) == m.zero ==> c == m.zero || c == v) && Diff(m, c, k) != v
  }

  lemma DiffTwice<W(!new)>(m: Words<W>, c: W, k: nat)
    requires XorLaws(m) && StepLinear(m)
    ensures Diff(m, Diff(m, c, k), k) == Diff(m, c, 2 * k)
  {
    var x := Bits(m, c, k);
    var y := Bits(m, x, k);
    BitsAdd(m, c, k, k);
    BitsLinear(m, x, c, k);
    // (y ^ x) ^ (x ^ c) == y ^ c
    Associate(m, y, x, m.xor(x, c));
    Associate(m, x, x, c);
    Neutral(m, x);
    Neutral(m, c);
  }

  lemma FixedDouble<W(!new)>(m: Words<W>, v: W, k: nat)
    requires XorLaws(m) && StepLinear(m) && FixedOnly(m, v, k)
    ensures FixedOnly(m, v, 2 * k)
  {
    forall c
      ensures (Diff(m, c, 2 * k) == m.zero ==> c == m.zero || c == v) && Diff(m, c, 2 * k) != v
    {
      DiffTwice(m, c, k);
    }
  }

  lemma DiffZero<W(!new)>(m: Words<W>, c: W, k: nat)
    requires XorLaws(m)
    ensures Diff(m, c, k) == m.zero <==> Bits(m, c, k) == c
  {
    var x := Bits(m, c, k);
    Neutral(m, c);
    Neutral(m, x);
    Associate(m, x, c, c);
  }

  lemma {:induction false} ZerosAreBits<W>(m: Words<W>, c: W, n: nat)
    ensures Zeros(m, c, n) == Bits(m, c, m.octet * n)
    decreases n
  {
    if n == 0 {
    } else {
      ZerosAreBits(m, Bits(m, c, m.octet), n - 1);
      assert m.octet * n == m.octet + m.octet * (n - 1);
      BitsAdd(m, c, m.octet, m.octet * (n - 1));
    }
  }

  /** Bytes of zeros leave exactly zero and v as they are. */
  lemma ZerosFix<W(!new)>(m: Words<W>, v: W, c: W, n: nat)
    requires XorLaws(m) && StepLinear(m) && FixedOnly(m, v, m.octet * n) && Bits(m, v, m.octet * n) == v
    ensures Zeros(m, c, n) == c <==> c == m.zero || c == v
  {
    ZerosAreBits(m, c, n);
    DiffZero(m, c, m.octet * n);
    BitsZero(m, m.octet * n);
    assert Diff(m, c, m.octet * n) == m.zero ==> c == m.zero || c == v;
  }

  /** The hash is the register over the data exactly if nothing is padded or the padding fixes it. */
  lemma HashExact<W(!new)>(m: Words<W>, v: W, c: W, data: seq<W>)
    requires XorLaws(m)
    requires |data| % 4 != 0 ==>
               (Zeros(m, Register(m, c, data), Padding(|data|)) == Register(m, c, data) <==>
                Register(m, c, data) == m.zero || Register(m, c, data) == v)
    ensures Register(m, c, Padded(m, data)) == Register(m, c, data) <==>
            |data| % 4 == 0 || Register(m, c, data) == m.zero || Register(m, c, data) == v
  {
    PaddingEffect(m, c, data);
  }
}
