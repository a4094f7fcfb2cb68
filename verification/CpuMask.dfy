/**
 CPU masks and their hexadecimal text.  A mask is one bit per CPU, in a number of whole
 nibbles; text is written without its terminating null, which the lengths account for.
 */
module CpuMask {
  import opened Options

  predicate IsMask(m: seq<bool>)
  {
    |m| % 4 == 0
  }

  // ---------------------------------------------------------------- nibbles

  function Weight(k: nat): nat
  {
    if k == 0 then 1 else if k == 1 then 2 else if k == 2 then 4 else 8
  }

  /** Bit k of a nibble. */
  predicate Bit(v: nat, k: nat)
  {
    v / Weight(k) % 2 == 1
  }

  /** The nibble with bit k set. */
  function SetBit(v: nat, k: nat): nat
  {
    if Bit(v, k) then v else v + Weight(k)
  }

  /** The value of the bits j and above of nibble d. */
  function Part(m: seq<bool>, d: nat, j: nat): nat
    requires IsMask(m) && 4 * d < |m|
    decreases 4 - j
  {
    if j >= 4 then 0 else Part(m, d, j + 1) + if m[4 * d + j] then Weight(j) else 0
  }

  function Nibble(m: seq<bool>, d: nat): (v: nat)
    requires IsMask(m) && 4 * d < |m|
  {
    Part(m, d, 0)
  }

  lemma PartBits(m: seq<bool>, d: nat)
    requires IsMask(m) && 4 * d < |m|
    ensures Nibble(m, d) < 16
    ensures forall k :: 0 <= k < 4 ==> Bit(Nibble(m, d), k) == m[4 * d + k]
  {
    var v0, v1, v2, v3 := Part(m, d, 0), Part(m, d, 1), Part(m, d, 2), Part(m, d, 3);
    assert Part(m, d, 4) == 0;
  }

  /** Adding the next lower bit, as the printing loop does. */
  lemma PartStep(m: seq<bool>, d: nat, j: nat)
    requires IsMask(m) && 4 * d < |m| && j < 4
    ensures Part(m, d, j) == if m[4 * d + j] then SetBit(Part(m, d, j + 1), j) else Part(m, d, j + 1)
  {
    assert Part(m, d, 4) == 0;
    if j == 0 {
      assert Part(m, d, 1) == Part(m, d, 2) + (if m[4 * d + 1] then 2 else 0);
      assert Part(m, d, 2) == Part(m, d, 3) + (if m[4 * d + 2] then 4 else 0);
      assert Part(m, d, 3) == if m[4 * d + 3] then 8 else 0;
    } else if j == 1 {
      assert Part(m, d, 2) == Part(m, d, 3) + (if m[4 * d + 2] then 4 else 0);
      assert Part(m, d, 3) == if m[4 * d + 3] then 8 else 0;
    }
  }

  // ---------------------------------------------------------------- characters

  function HexValue(c: char): (v: Option<nat>)
    ensures v.Some? ==> v.value < 16
  {
    if '0' <= c <= '9' then Some(c as int - '0' as int)
    else if 'A' <= c <= 'F' then Some(c as int - 'A' as int + 10)
    else if 'a' <= c <= 'f' then Some(c as int - 'a' as int + 10)
    else None
  }

  function HexChar(v: nat): (c: char)
    requires v < 16
    ensures HexValue(c) == Some(v) && (c == '0' <==> v == 0)
  {
    if v < 0xA then ('0' as int + v) as char else ('A' as int + v - 0xA) as char
  }

  // ---------------------------------------------------------------- reading

  /** The text without a prefix; the character before the x is not looked at. */
  function Stripped(s: string): string
  {
    if |s| >= 2 && (s[1] == 'x' || s[1] == 'X') then s[2..] else s
  }

  /** The digit for nibble d, counted from the end. */
  function DigitAt(t: string, d: nat): char
    requires d < |t|
  {
    t[|t| - 1 - d]
  }

  predicate TextBit(t: string, i: nat)
  {
    i / 4 < |t| && HexValue(DigitAt(t, i / 4)).Some? && Bit(HexValue(DigitAt(t, i / 4)).value, i % 4)
  }

  /** Every digit that has a place in the mask is one; digits beyond the mask are not read. */
  predicate Readable(t: string, width: nat)
  {
    forall d :: 0 <= d < |t| && 4 * d < width ==> HexValue(DigitAt(t, d)).Some?
  }

  /** The mask a text stands for. */
  function Parsed(width: nat, s: string): (m: seq<bool>)
    requires width % 4 == 0
    ensures |m| == width
  {
    var t := Stripped(s);
    if Readable(t, width) then seq(width, i requires 0 <= i < width => TextBit(t, i)) else seq(width, _ => false)
  }

  // ---------------------------------------------------------------- writing

  /** Digits of the nibbles below h, most significant first. */
  function Digits(m: seq<bool>, h: nat): (s: string)
    requires IsMask(m) && 4 * h <= |m|
    ensures |s| == h
  {
    if h == 0 then "" else
      PartBits(m, h - 1);
      [HexChar(Nibble(m, h - 1))] + Digits(m, h - 1)
  }

  lemma {:induction false} DigitsAt(m: seq<bool>, h: nat, d: nat)
    requires IsMask(m) && 4 * h <= |m| && d < h
    ensures Nibble(m, d) < 16 && DigitAt(Digits(m, h), d) == HexChar(Nibble(m, d))
  {
    PartBits(m, d);
    if d == h - 1 {
    } else {
      DigitsAt(m, h - 1, d);
    }
  }

  ghost predicate IsLast(m: seq<bool>, cpu: int)
  {
    -1 <= cpu < |m| && (cpu >= 0 ==> m[cpu]) && forall i :: cpu < i < |m| ==> !m[i]
  }

  /** The highest CPU of the mask, or -1. */
  function LastOf(m: seq<bool>): (cpu: int)
    ensures IsLast(m, cpu)
  {
    if m == [] then -1 else if m[|m| - 1] then |m| - 1 else LastOf(m[..|m| - 1])
  }

  /** The text of a mask. */
  function Printed(m: seq<bool>): string
    requires IsMask(m)
  {
    if LastOf(m) < 0 then "0x0" else "0x" + Digits(m, LastOf(m) / 4 + 1)
  }

  // ---------------------------------------------------------------- round trips

  /** Reading the digits of the nibbles below h gives the bits below 4 * h. */
  lemma DigitsBit(m: seq<bool>, h: nat, i: nat)
    requires IsMask(m) && 4 * h <= |m| && i < |m|
    ensures TextBit(Digits(m, h), i) == (i < 4 * h && m[i])
  {
    if i < 4 * h {
      DigitsAt(m, h, i / 4);
      PartBits(m, i / 4);
      assert m[4 * (i / 4) + i % 4] == m[i];
    }
  }

  /** All digits written are readable. */
  lemma DigitsReadable(m: seq<bool>, h: nat, width: nat)
    requires IsMask(m) && 4 * h <= |m|
    ensures Readable(Digits(m, h), width)
  {
    var t := Digits(m, h);
    forall d | 0 <= d < |t| && 4 * d < width
      ensures HexValue(DigitAt(t, d)).Some?
    {
      DigitsAt(m, h, d);
    }
  }

  lemma DigitsParse(m: seq<bool>, h: nat)
    requires IsMask(m) && 4 * h <= |m| && forall i :: 4 * h <= i < |m| ==> !m[i]
    ensures Parsed(|m|, "0x" + Digits(m, h)) == m
  {
    var t := Digits(m, h);
    StripPrefix(t);
    DigitsReadable(m, h, |m|);
    forall i | 0 <= i < |m|
      ensures TextBit(t, i) == m[i]
    {
      DigitsBit(m, h, i);
    }
  }

  lemma StripPrefix(t: string)
    ensures Stripped("0x" + t) == t
  {
    assert ("0x" + t)[1] == 'x';
    assert ("0x" + t)[2..] == t;
  }

  lemma ParsedZero(width: nat)
    requires width % 4 == 0
    ensures forall i :: 0 <= i < width ==> !Parsed(width, "0x0")[i]
  {
    var m := Parsed(width, "0x0");
    assert Stripped("0x0") == "0" && HexValue('0') == Some(0);
    forall i | 0 <= i < width
      ensures !m[i]
    {
      assert !TextBit("0", i);
    }
  }

  /** Reading what was written gives the mask back. */
  lemma PrintParse(m: seq<bool>)
    requires IsMask(m)
    ensures Parsed(|m|, Printed(m)) == m
  {
    if LastOf(m) < 0 {
      ParsedZero(|m|);
    } else {
      PrintParseSome(m, LastOf(m));
    }
  }

  lemma PrintParseSome(m: seq<bool>, last: nat)
    requires IsMask(m) && IsLast(m, last)
    ensures 4 * (last / 4 + 1) <= |m| && Parsed(|m|, "0x" + Digits(m, last / 4 + 1)) == m
  {
    var h := last / 4 + 1;
    assert last < 4 * h <= |m|;
    DigitsParse(m, h);
  }

  /** A text in the form that is written: upper case, no leading zero, as long as the mask allows. */
  predicate Canonical(s: string, width: nat)
  {
    || s == "0x0"
    || (&& |s| > 2 && s[0] == '0' && s[1] == 'x' && s[2] != '0' && 4 * (|s| - 2) <= width
        && forall i :: 2 <= i < |s| ==> UpperHex(s[i]))
  }

  lemma PrintedIsCanonical(m: seq<bool>)
    requires IsMask(m)
    ensures Canonical(Printed(m), |m|)
  {
    if LastOf(m) >= 0 {
      DigitsCanonical(m, LastOf(m));
    }
  }

  /** The digit of a CPU of the mask has its place. */
  lemma TopFits(m: seq<bool>, last: nat)
    requires IsMask(m) && last < |m|
    ensures 4 * (last / 4 + 1) <= |m|
  {
  }

  lemma DigitsCanonical(m: seq<bool>, last: nat)
    requires IsMask(m) && IsLast(m, last)
    ensures 4 * (last / 4 + 1) <= |m| && Canonical("0x" + Digits(m, last / 4 + 1), |m|)
  {
    TopFits(m, last);
    var h := last / 4 + 1;
    var s := "0x" + Digits(m, h);
    forall i | 2 <= i < 2 + h
      ensures UpperHex(s[i])
    {
      DigitsAt(m, h, h - 1 - (i - 2));
    }
    DigitsAt(m, h, h - 1);
    TopNotZero(m, last);
  }

  /** The nibble of the last CPU is not zero. */
  lemma TopNotZero(m: seq<bool>, last: nat)
    requires IsMask(m) && last < |m| && m[last]
    ensures 0 < Nibble(m, last / 4) < 16
  {
    PartBits(m, last / 4);
    assert Bit(Nibble(m, last / 4), last % 4) == m[4 * (last / 4) + last % 4];
  }

  /** A nibble is known by its bits. */
  lemma SameBits(v: nat, w: nat)
    requires v < 16 && w < 16 && forall k :: 0 <= k < 4 ==> Bit(v, k) == Bit(w, k)
    ensures v == w
  {
    assert Bit(v, 0) == Bit(w, 0) && Bit(v, 1) == Bit(w, 1) && Bit(v, 2) == Bit(w, 2) && Bit(v, 3) == Bit(w, 3);
  }

  predicate UpperHex(c: char)
  {
    '0' <= c <= '9' || 'A' <= c <= 'F'
  }

  lemma TextBitIs(t: string, d: nat, k: nat)
    requires d < |t| && k < 4 && HexValue(DigitAt(t, d)).Some?
    ensures TextBit(t, 4 * d + k) == Bit(HexValue(DigitAt(t, d)).value, k)
  {
    assert (4 * d + k) / 4 == d && (4 * d + k) % 4 == k;
  }

  lemma SameNibble(m: seq<bool>, t: string, d: nat)
    requires IsMask(m) && d < |t| && 4 * d < |m| && UpperHex(DigitAt(t, d))
    requires forall i :: 4 * d <= i < 4 * d + 4 ==> m[i] == TextBit(t, i)
    ensures HexValue(DigitAt(t, d)) == Some(Nibble(m, d))
  {
    PartBits(m, d);
    var v := HexValue(DigitAt(t, d)).value;
    forall k | 0 <= k < 4
      ensures Bit(Nibble(m, d), k) == Bit(v, k)
    {
      TextBitIs(t, d, k);
      assert m[4 * d + k] == TextBit(t, 4 * d + k);
    }
    SameBits(Nibble(m, d), v);
  }

  /** Upper-case digits that read as the mask are the digits of the mask. */
  lemma SameDigits(m: seq<bool>, t: string, h: nat)
    requires IsMask(m) && 4 * h <= |m| && |t| == h
    requires forall i :: 0 <= i < h ==> UpperHex(t[i])
    requires forall i :: 0 <= i < 4 * h ==> m[i] == TextBit(t, i)
    ensures Digits(m, h) == t
  {
    forall i | 0 <= i < h
      ensures Digits(m, h)[i] == t[i]
    {
      SameDigit(m, t, h, h - 1 - i);
    }
  }

  lemma SameDigit(m: seq<bool>, t: string, h: nat, d: nat)
    requires IsMask(m) && 4 * h <= |m| && |t| == h && d < h && UpperHex(DigitAt(t, d))
    requires forall i :: 4 * d <= i < 4 * d + 4 ==> m[i] == TextBit(t, i)
    ensures DigitAt(Digits(m, h), d) == DigitAt(t, d)
  {
    SameNibble(m, t, d);
    DigitsAt(m, h, d);
    SameChar(DigitAt(t, d));
  }

  lemma SameChar(c: char)
    requires UpperHex(c)
    ensures HexChar(HexValue(c).value) == c
  {
  }

  /** The bits of the mask are those of the text. */
  ghost predicate Reads(m: seq<bool>, t: string)
  {
    forall i :: 0 <= i < |m| ==> m[i] == TextBit(t, i)
  }

  lemma SomeBit(v: nat) returns (k: nat)
    requires 0 < v < 16
    ensures k < 4 && Bit(v, k)
  {
    k := if Bit(v, 0) then 0 else if Bit(v, 1) then 1 else if Bit(v, 2) then 2 else 3;
  }

  /** The leading digit has a bit in the mask, and no bit is above its nibble. */
  lemma LeadBit(m: seq<bool>, t: string, h: nat) returns (i: nat)
    requires IsMask(m) && |t| == h > 0 && 4 * h <= |m| && UpperHex(t[0]) && t[0] != '0' && Reads(m, t)
    ensures 4 * (h - 1) <= i < 4 * h && m[i]
  {
    var d := h - 1;
    assert DigitAt(t, d) == t[0];
    SameNibble(m, t, d);
    i := NibbleBit(m, d);
  }

  lemma NibbleBit(m: seq<bool>, d: nat) returns (i: nat)
    requires IsMask(m) && 4 * d < |m| && Nibble(m, d) > 0
    ensures 4 * d <= i < 4 * d + 4 && i < |m| && m[i]
  {
    PartBits(m, d);
    var k := SomeBit(Nibble(m, d));
    i := 4 * d + k;
  }

  /** The highest CPU is in the nibble of the leading digit. */
  lemma LastInLead(m: seq<bool>, t: string, h: nat)
    requires IsMask(m) && |t| == h > 0 && 4 * h <= |m| && UpperHex(t[0]) && t[0] != '0' && Reads(m, t)
    ensures LastOf(m) >= 0 && LastOf(m) / 4 + 1 == h
  {
    var i := LeadBit(m, t, h);
    var last := LastOf(m);
    assert i <= last;
    assert m[last] == TextBit(t, last);
  }

  lemma ParsedReads(s: string, width: nat)
    requires width % 4 == 0 && |s| > 2 && s[1] == 'x' && forall i :: 2 <= i < |s| ==> UpperHex(s[i])
    ensures Reads(Parsed(width, s), s[2..])
  {
    var t := Stripped(s);
    forall d | 0 <= d < |t| && 4 * d < width
      ensures HexValue(DigitAt(t, d)).Some?
    {
      assert UpperHex(s[2 + (|t| - 1 - d)]);
    }
  }

  lemma PrintedDigits(m: seq<bool>, t: string)
    requires IsMask(m) && |t| > 0 && 4 * |t| <= |m| && t[0] != '0' && Reads(m, t)
    requires forall i :: 0 <= i < |t| ==> UpperHex(t[i])
    ensures Printed(m) == "0x" + t
  {
    LastInLead(m, t, |t|);
    SameDigits(m, t, |t|);
  }

  /** Writing what was read gives a canonical text back. */
  lemma ParsePrint(s: string, width: nat)
    requires width % 4 == 0 && Canonical(s, width)
    ensures Printed(Parsed(width, s)) == s
  {
    if s == "0x0" {
      ParsedZero(width);
      assert LastOf(Parsed(width, s)) < 0;
    } else {
      ParsedReads(s, width);
      PrintedDigits(Parsed(width, s), s[2..]);
      assert s == "0x" + s[2..];
    }
  }

  // ---------------------------------------------------------------- the loops

  /** The highest CPU, by a scan from the top. */
  method Last(m: seq<bool>) returns (cpu: int)
    ensures cpu == LastOf(m)
  {
    cpu := |m| - 1;
    while cpu >= 0
      invariant -1 <= cpu < |m|
      invariant forall i :: cpu < i < |m| ==> !m[i]
    {
      if m[cpu] {
        break;
      }
      cpu := cpu - 1;
    }
    LastUnique(m, cpu, LastOf(m));
  }

  lemma LastUnique(m: seq<bool>, a: int, b: int)
    requires IsLast(m, a) && IsLast(m, b)
    ensures a == b
  {
  }

  /** Text to mask, from the last digit; an invalid digit leaves the mask empty. */
  method FromStr(width: nat, s: string) returns (mask: seq<bool>)
    requires width % 4 == 0
    ensures mask == Parsed(width, s)
  {
    mask := seq(width, _ => false);
    var cpuset := mask;
    var str, cpu := s, 0;
    if |str| >= 2 && (str[1] == 'x' || str[1] == 'X') {
      str := str[2..];
    }
    var len := |str|;
    while len > 0 && cpu < width
      invariant 0 <= len <= |str| && cpu == 4 * (|str| - len) <= width && |cpuset| == width
      invariant mask == seq(width, _ => false)
      invariant forall d :: 0 <= d < |str| - len ==> HexValue(DigitAt(str, d)).Some?
      invariant forall i :: 0 <= i < width ==> cpuset[i] == (i < cpu && TextBit(str, i))
    {
      var value := HexValue(str[len - 1]);
      var d := |str| - len;
      assert DigitAt(str, d) == str[len - 1];
      if value.None? {
        return;
      }
      for idx := 0 to 4
        invariant cpu == 4 * d + idx && |cpuset| == width
        invariant forall i :: 0 <= i < width ==> cpuset[i] == (i < cpu && TextBit(str, i))
      {
        TextBitIs(str, d, idx);
        if Bit(value.value, idx) {
          cpuset := cpuset[cpu := true];
        }
        cpu := cpu + 1;
      }
      len := len - 1;
    }
    mask := cpuset;
  }

  /** Mask to text: a length with room for the null, or failure when the buffer is too small. */
  method ToStr(mask: seq<bool>, len: int) returns (code: int, str: string)
    requires IsMask(mask)
    ensures code == if len < 4 || len <= |Printed(mask)| then -1 else |Printed(mask)| + 1
    ensures code >= 0 ==> str == Printed(mask)
  {
    str := "";
    var cpu := Last(mask);
    if len < 4 {
      return -1, str;
    }
    if cpu < 0 {
      return 4, "0x0";
    }
    var nibbles := cpu / 4 + 1;
    if len < 3 + nibbles {
      return -1, str;
    }
    str := WriteDigits(mask, cpu, nibbles);
    return |str| + 1, str;
  }

  /** One bit into the current nibble. */
  method AddBit(value: nat, bit: bool, k: nat, ghost m: seq<bool>, ghost d: nat) returns (r: nat)
    requires IsMask(m) && 4 * d < |m| && k < 4 && bit == m[4 * d + k] && value == Part(m, d, k + 1)
    ensures r == Part(m, d, k)
  {
    PartStep(m, d, k);
    r := value;
    if bit {
      r := SetBit(value, k);
    }
  }

  /** A complete nibble goes to the text. */
  method Flush(str: string, value: nat, ghost m: seq<bool>, ghost h: nat) returns (r: string)
    requires IsMask(m) && 0 < h && 4 * h <= |m| && value == Part(m, h - 1, 0)
    ensures r + Digits(m, h - 1) == str + Digits(m, h)
  {
    PartBits(m, h - 1);
    r := str + [HexChar(value)];
  }

  /** What the printing loop keeps: h nibbles to write, bit j of the lowest of them next. */
  ghost predicate Printing(m: seq<bool>, cpu: int, value: nat, str: string, h: nat, j: nat, text: string)
  {
    && IsMask(m) && 4 * h <= |m| && j < 4 && cpu == 4 * (h - 1) + j
    && (h > 0 ==> value == Part(m, h - 1, j + 1))
    && str + Digits(m, h) == text
  }

  /** One bit, and a digit at a nibble boundary. */
  method PrintBit(m: seq<bool>, cpu: nat, value: nat, str: string, ghost h: nat, ghost j: nat, ghost text: string)
    returns (v: nat, r: string, ghost h': nat, ghost j': nat)
    requires Printing(m, cpu, value, str, h, j, text)
    ensures Printing(m, cpu - 1, v, r, h', j', text)
  {
    assert h > 0;
    Place(h - 1, j);
    v := AddBit(value, m[cpu], cpu % 4, m, h - 1);
    if cpu % 4 == 0 {
      r := Flush(str, v, m, h);
      v, h', j' := 0, h - 1, 3;
    } else {
      r, h', j' := str, h, j - 1;
    }
  }

  /** The printing loop: bits are collected downwards and flushed at every nibble boundary. */
  method WriteDigits(mask: seq<bool>, last: nat, nibbles: nat) returns (str: string)
    requires IsMask(mask) && IsLast(mask, last) && nibbles == last / 4 + 1
    ensures str == "0x" + Digits(mask, nibbles)
  {
    str := "0x";
    var cpu: int, value := last, 0;
    ghost var h: nat, j: nat, text := nibbles, last % 4, "0x" + Digits(mask, nibbles);
    AboveLast(mask, last);
    while cpu >= 0
      invariant Printing(mask, cpu, value, str, h, j, text)
    {
      value, str, h, j := PrintBit(mask, cpu, value, str, h, j, text);
      cpu := cpu - 1;
    }
    assert h == 0;
  }

  lemma Place(d: nat, j: nat)
    requires j < 4
    ensures (4 * d + j) / 4 == d && (4 * d + j) % 4 == j
  {
  }

  lemma AboveLast(m: seq<bool>, cpu: nat)
    requires IsMask(m) && IsLast(m, cpu)
    ensures Part(m, cpu / 4, cpu % 4 + 1) == 0
  {
    PartZero(m, cpu / 4, cpu % 4 + 1);
  }

  lemma {:induction false} PartZero(m: seq<bool>, d: nat, j: nat)
    requires IsMask(m) && 4 * d < |m| && forall i :: 4 * d + j <= i < |m| ==> !m[i]
    ensures Part(m, d, j) == 0
    decreases 4 - j
  {
    if j >= 4 {
    } else {
      PartZero(m, d, j + 1);
    }
  }

  // ---------------------------------------------------------------- letter case

  function Lower(c: char): char
  {
    if 'A' <= c <= 'F' then (c as int - 'A' as int + 'a' as int) as char else c
  }

  function Lowered(s: string): (r: string)
    ensures |r| == |s| && forall i :: 0 <= i < |s| ==> r[i] == Lower(s[i])
  {
    seq(|s|, i requires 0 <= i < |s| => Lower(s[i]))
  }

  lemma LowerValue(c: char)
    ensures HexValue(Lower(c)) == HexValue(c)
  {
  }

  /** Exactly the sixteen digits, letters in both cases, have a value, each its own. */
  lemma HexExact(c: char, v: nat)
    ensures HexValue(c) == Some(v) <==>
            || (v < 10 && c as int == '0' as int + v)
            || (10 <= v < 16 && (c as int == 'A' as int + (v - 10) || c as int == 'a' as int + (v - 10)))
  {
  }

  /** Text in lower case is read as text in upper case. */
  lemma LowerSame(width: nat, s: string)
    requires width % 4 == 0
    ensures Parsed(width, Lowered(s)) == Parsed(width, s)
  {
    var t, l := Stripped(s), Stripped(Lowered(s));
    assert l == Lowered(t);
    forall d | 0 <= d < |t|
      ensures HexValue(DigitAt(l, d)) == HexValue(DigitAt(t, d))
    {
      LowerValue(DigitAt(t, d));
    }
    assert Readable(l, width) <==> Readable(t, width);
    assert forall i :: 0 <= i < width ==> TextBit(l, i) == TextBit(t, i);
  }

  /** A prefix with either letter is skipped. */
  lemma PrefixSkipped(width: nat, t: string)
    requires width % 4 == 0 && Stripped(t) == t
    ensures Parsed(width, "0x" + t) == Parsed(width, t) == Parsed(width, "0X" + t)
  {
    assert Stripped("0x" + t) == t && Stripped("0X" + t) == t;
  }

  /** What stands before the digits that have a place in the mask changes nothing, valid or not. */
  lemma BeyondIgnored(width: nat, s: string, t: string)
    requires width % 4 == 0 && 4 * |t| >= width && Stripped(t) == t && Stripped(s + t) == s + t
    ensures Parsed(width, s + t) == Parsed(width, t)
  {
    assert forall d :: 0 <= d < |t| ==> DigitAt(s + t, d) == DigitAt(t, d);
    assert Readable(s + t, width) <==> Readable(t, width);
    assert forall i :: 0 <= i < width ==> TextBit(s + t, i) == TextBit(t, i);
  }

  /** A character in reach that is no digit empties the mask. */
  lemma InvalidEmpties(width: nat, s: string, d: nat)
    requires width % 4 == 0 && d < |Stripped(s)| && 4 * d < width && HexValue(DigitAt(Stripped(s), d)).None?
    ensures forall i :: 0 <= i < width ==> !Parsed(width, s)[i]
  {
  }
}
