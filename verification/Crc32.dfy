/**
 The bit-by-bit CRC-32 of section 3.4 of RFC 2083 and the chunk layout of section 3.2
 of RFC 2083 (`crc32` and `chunk` inside `redBluePngBase64`,
 scripts/model-fitness/capabilities.ts).
 */
module Crc32 {
  import opened Wrappers

  type byte = bv8

  const START: bv32 := 0xFFFF_FFFF

  /** Bitwise exclusive or; named, so that proofs can use its laws without looking at bits. */
  function Xor(a: bv32, b: bv32): bv32 { a ^ b }

  /** One shift-and-xor step: `(c >>> 1) ^ (0xEDB88320 & -(c & 1))`. */
  function Step(c: bv32): bv32 {
    Xor(c >> 1, 0xEDB8_8320 & (0 - (c & 1)))
  }

  function Steps(c: bv32, k: nat): bv32
    decreases k
  {
    if k == 0 then c else Steps(Step(c), k - 1)
  }

  /** The register after one byte. */
  function Feed(c: bv32, b: byte): bv32 {
    Steps(Xor(c, b as bv32), 8)
  }

  function FeedAll(c: bv32, buf: seq<byte>): bv32
    decreases buf
  {
    if buf == [] then c else FeedAll(Feed(c, buf[0]), buf[1..])
  }

  function Crc(buf: seq<byte>): bv32 {
    !FeedAll(START, buf)
  }

  method Crc32(buf: seq<byte>) returns (crc: bv32)
    ensures crc == Crc(buf)
  {
    var c := START;
    for i := 0 to |buf|
      invariant FeedAll(c, buf[i..]) == FeedAll(START, buf)
    {
      assert buf[i..][1..] == buf[i + 1..];
      c := FeedByte(c, buf[i]);
    }
    crc := !c;
  }

  /** The inner loop: xor the byte in, then eight steps. */
  method FeedByte(c0: bv32, b: byte) returns (c: bv32)
    ensures c == Feed(c0, b)
  {
    c := c0 ^ (b as bv32);
    for k := 0 to 8
      invariant Steps(c, 8 - k) == Feed(c0, b)
    {
      c := (c >> 1) ^ (0xEDB8_8320 & (0 - (c & 1)));
    }
  }

  // ---------- Laws of exclusive or ----------

  lemma XorCancel(c: bv32, d: bv32, x: bv32)
    requires Xor(c, x) == Xor(d, x) || Xor(x, c) == Xor(x, d)
    ensures c == d
  {
  }

  lemma XorAssociative(a: bv32, b: bv32, c: bv32)
    ensures Xor(Xor(a, b), c) == Xor(a, Xor(b, c))
  {
  }

  lemma XorCommutes(a: bv32, b: bv32)
    ensures Xor(a, b) == Xor(b, a)
  {
  }

  // ---------- Each step is a linear bijection ----------

  function Half(w: bv32): bv32 { w >> 1 }

  function Mask(c: bv32): bv32 { 0xEDB8_8320 & (0 - (c & 1)) }

  lemma StepIs(c: bv32)
    ensures Step(c) == Xor(Half(c), Mask(c))
    ensures Mask(c) == if c & 1 == 0 then 0 else 0xEDB8_8320
  {
  }

  lemma PartsLinear(c: bv32, d: bv32)
    ensures Half(Xor(c, d)) == Xor(Half(c), Half(d))
    ensures Mask(Xor(c, d)) == Xor(Mask(c), Mask(d))
  {
  }

  lemma StepInjective(c: bv32, d: bv32)
    requires Step(c) == Step(d)
    ensures c == d
  {
    StepIs(c);
    StepIs(d);
  }

  lemma {:induction false} StepsInjective(c: bv32, d: bv32, k: nat)
    requires Steps(c, k) == Steps(d, k)
    ensures c == d
    decreases k
  {
    hide Step;
    if k > 0 {
      StepsInjective(Step(c), Step(d), k - 1);
      StepInjective(c, d);
    }
  }

  lemma {:induction false} StepsLinear(c: bv32, d: bv32, k: nat)
    ensures Steps(Xor(c, d), k) == Xor(Steps(c, k), Steps(d, k))
    decreases k
  {
    hide Xor, Step, Mask, Half;
    if k > 0 {
      StepIs(c);
      StepIs(d);
      StepIs(Xor(c, d));
      PartsLinear(c, d);
      var s, t, m, n := Half(c), Half(d), Mask(c), Mask(d);
      XorAssociative(s, t, Xor(m, n));
      XorAssociative(t, m, n);
      XorCommutes(t, m);
      XorAssociative(m, t, n);
      XorAssociative(s, m, Xor(t, n));
      assert Step(Xor(c, d)) == Xor(Step(c), Step(d));
      StepsLinear(Step(c), Step(d), k - 1);
    }
  }

  lemma {:induction false} StepsAdd(c: bv32, j: nat, k: nat)
    ensures Steps(Steps(c, j), k) == Steps(c, j + k)
    decreases j
  {
    hide Step;
    if j > 0 {
      StepsAdd(Step(c), j - 1, k);
    }
  }

  lemma {:induction false} FeedAllAppend(c: bv32, a: seq<byte>, b: seq<byte>)
    ensures FeedAll(c, a + b) == FeedAll(FeedAll(c, a), b)
    decreases a
  {
    if a == [] {
      assert a + b == b;
    } else {
      assert (a + b)[1..] == a[1..] + b;
      FeedAllAppend(Feed(c, a[0]), a[1..], b);
    }
  }

  // ---------- Up to four bytes act as one word ----------

  /** A byte in the lowest place, below the others. */
  function Push(b: byte, w: bv32): bv32 { Xor(b as bv32, w << 8) }

  /** The bytes as one number, the first in the lowest place. */
  function Word(e: seq<byte>): bv32
    decreases e
  {
    if e == [] then 0 else Push(e[0], Word(e[1..]))
  }

  /** The highest one, two or three bytes are zero. */
  predicate Top1(w: bv32) { w & 0xFF00_0000 == 0 }
  predicate Top2(w: bv32) { w & 0xFFFF_0000 == 0 }
  predicate Top3(w: bv32) { w & 0xFFFF_FF00 == 0 }

  /** A byte more takes one place more. */
  lemma PushTop(b: byte, w: bv32)
    ensures Top2(w) ==> Top1(w) && Top1(Push(b, w))
    ensures Top3(w) ==> Top2(w) && Top2(Push(b, w))
    ensures Top3(0) && (w == 0 ==> Top3(Push(b, w)))
  {
  }

  /** Fewer bytes leave the upper places zero. */
  lemma {:induction false} WordBound(e: seq<byte>)
    requires |e| <= 3
    ensures Top1(Word(e))
    ensures |e| <= 2 ==> Top2(Word(e))
    ensures |e| <= 1 ==> Top3(Word(e))
  {
    hide Push, Top1, Top2, Top3;
    PushTop(0, Word(e));
    if e != [] {
      WordBound(e[1..]);
      PushTop(e[0], Word(e[1..]));
    }
  }

  predicate IsDouble(v: bv32, w: bv32) { v & 1 == 0 && v >> 1 == w }

  lemma StepHalves(v: bv32, w: bv32)
    requires IsDouble(v, w)
    ensures Step(v) == w
  {
  }

  lemma Doubles(w: bv32)
    requires Top1(w)
    ensures IsDouble(w << 8, w << 7) && IsDouble(w << 7, w << 6) && IsDouble(w << 6, w << 5) && IsDouble(w << 5, w << 4)
    ensures IsDouble(w << 4, w << 3) && IsDouble(w << 3, w << 2) && IsDouble(w << 2, w << 1) && IsDouble(w << 1, w)
  {
  }

  lemma EightSteps(c: bv32)
    ensures Steps(c, 8) == Step(Step(Step(Step(Step(Step(Step(Step(c))))))))
  {
    hide Step;
    StepsAdd(c, 4, 4);
    FourSteps(c);
    FourSteps(Steps(c, 4));
  }

  lemma FourSteps(c: bv32)
    ensures Steps(c, 4) == Step(Step(Step(Step(c))))
  {
    hide Step;
    assert Steps(c, 4) == Steps(Step(c), 3) == Steps(Step(Step(c)), 2);
    assert Steps(Step(Step(c)), 2) == Steps(Step(Step(Step(c))), 1);
  }

  /** Eight steps shift out a zero byte. */
  lemma EightShifts(w: bv32)
    requires Top1(w)
    ensures Steps(w << 8, 8) == w
  {
    hide Step, Steps, IsDouble, Top1;
    EightSteps(w << 8);
    Doubles(w);
    StepHalves(w << 8, w << 7);
    StepHalves(w << 7, w << 6);
    StepHalves(w << 6, w << 5);
    StepHalves(w << 5, w << 4);
    StepHalves(w << 4, w << 3);
    StepHalves(w << 3, w << 2);
    StepHalves(w << 2, w << 1);
    StepHalves(w << 1, w);
  }

  lemma XorZero(c: bv32)
    ensures Xor(c, 0) == c
  {
  }

  lemma FewSteps(c: bv32)
    ensures Steps(c, 0) == c && Steps(c, 1) == Step(c)
  {
    hide Step;
    assert Steps(Step(c), 0) == Step(c);
  }

  lemma FeedAndPush(c: bv32, b: byte, w: bv32)
    ensures Feed(c, b) == Steps(Xor(c, b as bv32), 8) && Push(b, w) == Xor(b as bv32, w << 8)
  {
  }

  lemma {:induction false} FeedWord(c: bv32, e: seq<byte>)
    requires |e| <= 4
    ensures FeedAll(c, e) == Steps(Xor(c, Word(e)), 8 * |e|)
    decreases e
  {
    hide Xor, Step, Steps, Feed, Push, Top1, Top2, Top3;
    if e == [] {
      XorZero(c);
      FewSteps(c);
    } else {
      FeedWord(Feed(c, e[0]), e[1..]);
      WordBound(e[1..]);
      var b, w := e[0], Word(e[1..]);
      FeedAndPush(c, b, w);
      EightShifts(w);
      StepsLinear(Xor(c, b as bv32), w << 8, 8);
      XorAssociative(c, b as bv32, w << 8);
      StepsAdd(Xor(c, Word(e)), 8, 8 * |e[1..]|);
    }
  }

  function LowByte(w: bv32): byte { (w & 0xFF) as bv8 }

  function HighBytes(w: bv32): bv32 { w >> 8 }

  lemma BytesOf(b: byte, w: bv32, x: bv32)
    requires x == (b as bv32) ^ (w << 8) && Top1(w)
    ensures LowByte(x) == b && HighBytes(x) == w
  {
  }

  lemma WordSplit(b: byte, w: bv32)
    requires Top1(w)
    ensures LowByte(Push(b, w)) == b && HighBytes(Push(b, w)) == w
  {
    hide Top1, LowByte, HighBytes;
    BytesOf(b, w, Push(b, w));
  }

  lemma WordHead(e: seq<byte>)
    requires 0 < |e| <= 4
    ensures LowByte(Word(e)) == e[0] && HighBytes(Word(e)) == Word(e[1..])
  {
    hide Push, LowByte, HighBytes, Top1, Top2, Top3;
    WordBound(e[1..]);
    WordSplit(e[0], Word(e[1..]));
  }

  lemma {:induction false} WordInjective(e: seq<byte>, f: seq<byte>)
    requires |e| == |f| <= 4 && Word(e) == Word(f)
    ensures e == f
  {
    hide Word, LowByte, HighBytes;
    if e != [] {
      WordHead(e);
      WordHead(f);
      WordInjective(e[1..], f[1..]);
      assert e == [e[0]] + e[1..] && f == [f[0]] + f[1..];
    }
  }

  // ---------- The message as a stream of bits ----------

  function Bit(on: bool, mask: byte): byte { if on then mask else 0 }

  lemma BitsBack(a: bool, b: bool, c: bool, d: bool, e: bool, f: bool, g: bool, h: bool)
    ensures var x := Bit(a, 0x80) | Bit(b, 0x40) | Bit(c, 0x20) | Bit(d, 0x10) | Bit(e, 0x08) | Bit(f, 0x04) | Bit(g, 0x02) | Bit(h, 0x01);
      && (x & 0x80 != 0 <==> a) && (x & 0x40 != 0 <==> b) && (x & 0x20 != 0 <==> c) && (x & 0x10 != 0 <==> d)
      && (x & 0x08 != 0 <==> e) && (x & 0x04 != 0 <==> f) && (x & 0x02 != 0 <==> g) && (x & 0x01 != 0 <==> h)
  {
  }

  /** The bits of a byte in the order in which the register takes them: lowest first. */
  function Bits(b: byte): (bits: seq<bool>)
    ensures |bits| == 8
  {
    [b & 0x01 != 0, b & 0x02 != 0, b & 0x04 != 0, b & 0x08 != 0, b & 0x10 != 0, b & 0x20 != 0, b & 0x40 != 0, b & 0x80 != 0]
  }

  function ByteOf(e: seq<bool>): byte
    requires |e| == 8
  {
    Bit(e[7], 0x80) | Bit(e[6], 0x40) | Bit(e[5], 0x20) | Bit(e[4], 0x10) | Bit(e[3], 0x08) | Bit(e[2], 0x04) | Bit(e[1], 0x02) | Bit(e[0], 0x01)
  }

  lemma BitsOfByte(e: seq<bool>)
    requires |e| == 8
    ensures Bits(ByteOf(e)) == e
  {
    hide Bit, Bits;
    BitsBack(e[7], e[6], e[5], e[4], e[3], e[2], e[1], e[0]);
    BitsListed(ByteOf(e), e);
  }

  lemma BitsListed(x: byte, e: seq<bool>)
    requires |e| == 8
    requires (x & 0x80 != 0 <==> e[7]) && (x & 0x40 != 0 <==> e[6]) && (x & 0x20 != 0 <==> e[5]) && (x & 0x10 != 0 <==> e[4])
    requires (x & 0x08 != 0 <==> e[3]) && (x & 0x04 != 0 <==> e[2]) && (x & 0x02 != 0 <==> e[1]) && (x & 0x01 != 0 <==> e[0])
    ensures Bits(x) == e
  {
  }

  lemma ByteOfBits(b: byte)
    ensures ByteOf(Bits(b)) == b
  {
  }

  function AllBits(m: seq<byte>): seq<bool> {
    if m == [] then [] else Bits(m[0]) + AllBits(m[1..])
  }

  function LowBit32(on: bool): bv32 { if on then 1 else 0 }

  /** One step of the register with one bit of the message. */
  function FeedBit(c: bv32, on: bool): bv32 { Step(Xor(c, LowBit32(on))) }

  function FeedBits(c: bv32, e: seq<bool>): bv32
    decreases e
  {
    if e == [] then c else FeedBits(FeedBit(c, e[0]), e[1..])
  }

  lemma {:induction false} FeedBitsAppend(c: bv32, a: seq<bool>, b: seq<bool>)
    ensures FeedBits(c, a + b) == FeedBits(FeedBits(c, a), b)
    decreases a
  {
    hide FeedBit;
    if a == [] {
      assert a + b == b;
    } else {
      assert (a + b)[1..] == a[1..] + b;
      FeedBitsAppend(FeedBit(c, a[0]), a[1..], b);
    }
  }

  lemma {:induction false} FeedBitsInjective(c: bv32, d: bv32, e: seq<bool>)
    requires FeedBits(c, e) == FeedBits(d, e)
    ensures c == d
    decreases e
  {
    hide Xor, Step;
    if e != [] {
      FeedBitsInjective(FeedBit(c, e[0]), FeedBit(d, e[0]), e[1..]);
      StepInjective(Xor(c, LowBit32(e[0])), Xor(d, LowBit32(e[0])));
      XorCancel(c, d, LowBit32(e[0]));
    }
  }

  predicate Odd(w: bv32) { w & 1 != 0 }

  /** The word without its lowest `i` bits. */
  function Rest(w: bv32, i: nat): bv32 { if i == 0 then w else Half(Rest(w, i - 1)) }

  lemma {:induction false} RestOfHalf(w: bv32, i: nat)
    ensures Rest(Half(w), i) == Rest(w, i + 1)
  {
    hide Half;
    if i > 0 {
      RestOfHalf(w, i - 1);
    } else {
      assert Rest(w, 1) == Half(Rest(w, 0));
    }
  }

  /** The lowest `k` bits of a word. */
  function LowBits(w: bv32, k: nat): seq<bool> {
    seq(k, i requires 0 <= i < k => Odd(Rest(w, i)))
  }

  lemma NextLowBit(w: bv32, k: nat)
    requires k > 0
    ensures LowBits(w, k)[0] == Odd(w) && LowBits(w, k)[1..] == LowBits(Half(w), k - 1)
    ensures Rest(Half(w), k - 1) == Rest(w, k)
  {
    hide Odd, Half;
    RestOfHalf(w, k - 1);
    forall i | 0 <= i < k - 1 ensures LowBits(w, k)[1..][i] == LowBits(Half(w), k - 1)[i] {
      RestOfHalf(w, i);
    }
  }

  lemma SplitLow(w: bv32)
    ensures w == Xor(LowBit32(Odd(w)), Half(w) << 1) && Step(Half(w) << 1) == Half(w)
  {
  }

  /** Taking the bits of a word one by one or the word at once is the same. */
  lemma {:induction false} FeedLowBits(c: bv32, w: bv32, k: nat)
    requires Rest(w, k) == 0
    ensures FeedBits(c, LowBits(w, k)) == Steps(Xor(c, w), k)
    decreases k
  {
    hide Xor, Step, LowBit32, Odd, Half;
    if k == 0 {
      XorZero(c);
    } else {
      var low, rest := LowBit32(Odd(w)), Half(w) << 1;
      SplitLow(w);
      XorAssociative(c, low, rest);
      StepsLinear(Xor(c, low), rest, 1);
      FewSteps(Xor(Xor(c, low), rest));
      FewSteps(Xor(c, low));
      FewSteps(rest);
      NextLowBit(w, k);
      FeedLowBits(FeedBit(c, Odd(w)), Half(w), k - 1);
    }
  }

  lemma ByteShifts(b: byte)
    ensures var w := b as bv32; var w1 := Half(w); var w2 := Half(w1); var w3 := Half(w2); var w4 := Half(w3);
      && (Odd(w) <==> b & 0x01 != 0) && (Odd(w1) <==> b & 0x02 != 0)
      && (Odd(w2) <==> b & 0x04 != 0) && (Odd(w3) <==> b & 0x08 != 0)
      && var w5 := Half(w4); var w6 := Half(w5); var w7 := Half(w6);
      && (Odd(w4) <==> b & 0x10 != 0) && (Odd(w5) <==> b & 0x20 != 0)
      && (Odd(w6) <==> b & 0x40 != 0) && (Odd(w7) <==> b & 0x80 != 0) && Half(w7) == 0
  {
  }

  lemma EightRests(w: bv32)
    ensures var w1 := Half(w); var w2 := Half(w1); var w3 := Half(w2); var w4 := Half(w3);
      && Rest(w, 0) == w && Rest(w, 1) == w1 && Rest(w, 2) == w2 && Rest(w, 3) == w3 && Rest(w, 4) == w4
      && var w5 := Half(w4); var w6 := Half(w5); var w7 := Half(w6);
      && Rest(w, 5) == w5 && Rest(w, 6) == w6 && Rest(w, 7) == w7 && Rest(w, 8) == Half(w7)
  {
    hide Half;
    assert Rest(w, 2) == Half(Rest(w, 1)) && Rest(w, 4) == Half(Rest(w, 3)) && Rest(w, 6) == Half(Rest(w, 5));
  }

  lemma LowBitsOfByte(b: byte)
    ensures LowBits(b as bv32, 8) == Bits(b) && Rest(b as bv32, 8) == 0
  {
    hide Rest, Odd, Half, Bits;
    ByteShifts(b);
    EightRests(b as bv32);
    BitsListed(b, LowBits(b as bv32, 8));
  }

  /** A byte is taken bit by bit. */
  lemma FeedByBits(c: bv32, b: byte)
    ensures FeedBits(c, Bits(b)) == Feed(c, b)
  {
    hide FeedBits, LowBits, Rest, Bits, Xor, Steps;
    LowBitsOfByte(b);
    FeedLowBits(c, b as bv32, 8);
  }

  lemma {:induction false} FeedAllBits(c: bv32, m: seq<byte>)
    ensures FeedBits(c, AllBits(m)) == FeedAll(c, m)
    decreases m
  {
    hide Feed, Bits, FeedBit;
    if m != [] {
      FeedBitsAppend(c, Bits(m[0]), AllBits(m[1..]));
      FeedByBits(c, m[0]);
      FeedAllBits(Feed(c, m[0]), m[1..]);
    }
  }

  // ---------- Bursts of up to 32 bits are always caught ----------

  lemma {:induction false} BytesOfBits(e: seq<bool>) returns (bytes: seq<byte>)
    requires |e| % 8 == 0
    ensures AllBits(bytes) == e && 8 * |bytes| == |e|
    decreases e
  {
    hide Bits, ByteOf;
    if e == [] {
      bytes := [];
    } else {
      var rest := BytesOfBits(e[8..]);
      bytes := [ByteOf(e[..8])] + rest;
      BitsOfByte(e[..8]);
      assert bytes[1..] == rest && e == e[..8] + e[8..];
    }
  }

  lemma UpToFourBytes(c: bv32, e: seq<byte>, f: seq<byte>)
    requires |e| == |f| <= 4 && FeedAll(c, e) == FeedAll(c, f)
    ensures e == f
  {
    hide Xor, Steps, FeedAll, Word;
    FeedWord(c, e);
    FeedWord(c, f);
    StepsInjective(Xor(c, Word(e)), Xor(c, Word(f)), 8 * |e|);
    XorCancel(Word(e), Word(f), c);
    WordInjective(e, f);
  }

  /** The register tells any two strings of up to 32 bits apart. */
  lemma UpTo32Bits(c: bv32, e: seq<bool>, f: seq<bool>)
    requires |e| == |f| <= 32 && FeedBits(c, e) == FeedBits(c, f)
    ensures e == f
  {
    hide FeedBits, FeedAll;
    var pad := seq(32 - |e|, i => false);
    FeedBitsAppend(c, e, pad);
    FeedBitsAppend(c, f, pad);
    var x := BytesOfBits(e + pad);
    var y := BytesOfBits(f + pad);
    FeedAllBits(c, x);
    FeedAllBits(c, y);
    UpToFourBytes(c, x, y);
    assert e == (e + pad)[..|e|] && f == (f + pad)[..|e|];
  }

  lemma BitBurst(c: bv32, p: seq<bool>, e: seq<bool>, f: seq<bool>, s: seq<bool>)
    requires |e| == |f| <= 32 && e != f
    ensures FeedBits(c, p + e + s) != FeedBits(c, p + f + s)
  {
    hide FeedBits;
    FeedBitsAppend(c, p + e, s);
    FeedBitsAppend(c, p + f, s);
    FeedBitsAppend(c, p, e);
    FeedBitsAppend(c, p, f);
    if FeedBits(c, p + e + s) == FeedBits(c, p + f + s) {
      FeedBitsInjective(FeedBits(c, p + e), FeedBits(c, p + f), s);
      UpTo32Bits(FeedBits(c, p), e, f);
    }
  }

  lemma {:induction false} AllBitsInjective(m: seq<byte>, m': seq<byte>)
    requires AllBits(m) == AllBits(m') && |m| == |m'|
    ensures m == m'
  {
    hide Bits, ByteOf;
    if m != [] {
      assert AllBits(m)[..8] == Bits(m[0]) && AllBits(m')[..8] == Bits(m'[0]);
      assert AllBits(m)[8..] == AllBits(m[1..]) && AllBits(m')[8..] == AllBits(m'[1..]);
      ByteOfBits(m[0]);
      ByteOfBits(m'[0]);
      AllBitsInjective(m[1..], m'[1..]);
      assert m == [m[0]] + m[1..] && m' == [m'[0]] + m'[1..];
    }
  }

  lemma {:induction false} AllBitsAt(m: seq<byte>, i: nat)
    requires i < 8 * |m|
    ensures |AllBits(m)| == 8 * |m| && AllBits(m)[i] == Bits(m[i / 8])[i % 8]
  {
    hide Bits;
    AllBitsSize(m);
    if i >= 8 {
      AllBitsAt(m[1..], i - 8);
    }
  }

  lemma {:induction false} AllBitsSize(m: seq<byte>)
    ensures |AllBits(m)| == 8 * |m|
  {
    if m != [] {
      AllBitsSize(m[1..]);
    }
  }

  /** Equally long messages that differ, but only inside 32 consecutive bits, wherever those begin. */
  ghost predicate DifferInBurst(m: seq<byte>, m': seq<byte>, at: nat) {
    && |m| == |m'| && m != m' && |AllBits(m)| == |AllBits(m')|
    && forall i :: 0 <= i < |AllBits(m)| && !(at <= i < at + 32) ==> AllBits(m)[i] == AllBits(m')[i]
  }

  lemma CrcOfBits(m: seq<byte>)
    ensures Crc(m) == !FeedBits(START, AllBits(m))
  {
    hide FeedBits, FeedAll;
    FeedAllBits(START, m);
  }

  lemma BurstDetected(m: seq<byte>, m': seq<byte>, at: nat)
    requires DifferInBurst(m, m', at)
    ensures Crc(m) != Crc(m')
  {
    hide Crc, FeedBits, AllBits;
    var b, b' := AllBits(m), AllBits(m');
    var lo := if at < |b| then at else |b|;
    var hi := if at + 32 < |b| then at + 32 else |b|;
    assert b == b[..lo] + b[lo..hi] + b[hi..] && b' == b'[..lo] + b'[lo..hi] + b'[hi..];
    assert b[..lo] == b'[..lo] && b[hi..] == b'[hi..];
    if b[lo..hi] == b'[lo..hi] {
      AllBitsInjective(m, m');
    }
    BitBurst(START, b[..lo], b[lo..hi], b'[lo..hi], b[hi..]);
    CrcOfBits(m);
    CrcOfBits(m');
  }

  /** Equally long messages that differ, but only inside a window of four bytes. */
  ghost predicate DifferInWindow(m: seq<byte>, m': seq<byte>, at: nat) {
    |m| == |m'| && m != m' && forall i :: 0 <= i < |m| && !(at <= i < at + 4) ==> m[i] == m'[i]
  }

  lemma WindowIsBurst(m: seq<byte>, m': seq<byte>, at: nat)
    requires DifferInWindow(m, m', at)
    ensures DifferInBurst(m, m', 8 * at)
  {
    hide Bits, AllBits;
    AllBitsSize(m);
    AllBitsSize(m');
    forall i | 0 <= i < |AllBits(m)| && !(8 * at <= i < 8 * at + 32) ensures AllBits(m)[i] == AllBits(m')[i] {
      AllBitsAt(m, i);
      AllBitsAt(m', i);
      assert !(at <= i / 8 < at + 4);
    }
  }

  lemma WindowDetected(m: seq<byte>, m': seq<byte>, at: nat)
    requires DifferInWindow(m, m', at)
    ensures Crc(m) != Crc(m')
  {
    WindowIsBurst(m, m', at);
    BurstDetected(m, m', 8 * at);
  }

  // ---------- The residue ----------

  /** The register after 32 steps from all ones. */
  lemma StepsOfOnes()
    ensures Steps(START, 32) == 0xDEBB_20E3
  {
    EightSteps(0xFFFF_FFFF);
    assert Steps(0xFFFF_FFFF, 8) == 0x2DFD_1072;
    EightSteps(0x2DFD_1072);
    assert Steps(0x2DFD_1072, 8) == 0xBE26_ED00;
    EightSteps(0xBE26_ED00);
    assert Steps(0xBE26_ED00, 8) == 0x00BE_26ED;
    EightSteps(0x00BE_26ED);
    assert Steps(0x00BE_26ED, 8) == 0xDEBB_20E3;
    StepsAdd(START, 8, 8);
    StepsAdd(START, 16, 8);
    StepsAdd(START, 24, 8);
  }

  /** The bytes of a word, lowest place first. */
  function LittleEndian(w: bv32): seq<byte> {
    [LowByte(w), LowByte(w >> 8), LowByte(w >> 16), LowByte(w >> 24)]
  }

  lemma WordOfParts(w: bv32)
    ensures Push(LowByte(w), Push(LowByte(w >> 8), Push(LowByte(w >> 16), Push(LowByte(w >> 24), 0)))) == w
  {
  }

  lemma WordStep(e: seq<byte>, i: nat)
    requires i < |e|
    ensures Word(e[i..]) == Push(e[i], Word(e[i + 1..]))
  {
    hide Push;
    assert e[i..][1..] == e[i + 1..];
  }

  lemma WordOfLittleEndian(w: bv32)
    ensures Word(LittleEndian(w)) == w
  {
    hide Push, LowByte;
    WordOfParts(w);
    var e := LittleEndian(w);
    assert Word(e[4..]) == 0;
    WordStep(e, 3);
    WordStep(e, 2);
    WordStep(e, 1);
    WordStep(e, 0);
    assert e[0..] == e;
  }

  /** Any message followed by its own CRC, lowest byte first, has one and the same CRC. */
  lemma Residue(m: seq<byte>)
    ensures Crc(m + LittleEndian(Crc(m))) == 0x2144_DF1C
  {
    hide Xor, FeedAll, Steps, Word, LittleEndian, Crc;
    var c, crc := FeedAll(START, m), Crc(m);
    CrcIs(m);
    CrcIs(m + LittleEndian(crc));
    FeedAllAppend(START, m, LittleEndian(crc));
    LittleEndianSize(crc);
    FeedWord(c, LittleEndian(crc));
    WordOfLittleEndian(crc);
    StepsOfOnes();
    KnownResidue(FeedAll(START, m + LittleEndian(crc)), Crc(m + LittleEndian(crc)));
  }

  lemma CrcIs(m: seq<byte>)
    ensures Crc(m) == !FeedAll(START, m) && Xor(FeedAll(START, m), Crc(m)) == START
  {
  }

  lemma KnownResidue(c: bv32, crc: bv32)
    requires c == 0xDEBB_20E3 && crc == !c
    ensures crc == 0x2144_DF1C
  {
  }

  lemma LittleEndianSize(w: bv32)
    ensures |LittleEndian(w)| == 4
  {
  }

  // ---------- Chunks ----------

  /** `writeUInt32BE`. */
  function BigEndian(w: bv32): seq<byte> {
    [LowByte(w >> 24), LowByte(w >> 16), LowByte(w >> 8), LowByte(w)]
  }

  /** `readUInt32BE`. */
  function FromBigEndian(b: seq<byte>): bv32
    requires |b| == 4
  {
    ((b[0] as bv32) << 24) | ((b[1] as bv32) << 16) | ((b[2] as bv32) << 8) | (b[3] as bv32)
  }

  lemma BigEndianParts(w: bv32)
    ensures ((LowByte(w >> 24) as bv32) << 24) | ((LowByte(w >> 16) as bv32) << 16) | ((LowByte(w >> 8) as bv32) << 8)
            | (LowByte(w) as bv32) == w
  {
  }

  lemma BigEndianRoundTrip(w: bv32)
    ensures |BigEndian(w)| == 4 && FromBigEndian(BigEndian(w)) == w
  {
    hide LowByte;
    BigEndianParts(w);
  }

  const LIMIT: nat := 0x1_0000_0000

  /** The byte with value `d`, bit by bit. */
  function Digit(d: nat): byte {
    var d1 := d / 2; var d2 := d1 / 2; var d3 := d2 / 2; var d4 := d3 / 2; var d5 := d4 / 2; var d6 := d5 / 2; var d7 := d6 / 2;
    Bit(d7 % 2 == 1, 0x80) | Bit(d6 % 2 == 1, 0x40) | Bit(d5 % 2 == 1, 0x20) | Bit(d4 % 2 == 1, 0x10)
    | Bit(d3 % 2 == 1, 0x08) | Bit(d2 % 2 == 1, 0x04) | Bit(d1 % 2 == 1, 0x02) | Bit(d % 2 == 1, 0x01)
  }

  function Weight(bit: bool, weight: nat): nat { if bit then weight else 0 }

  /** The value of a byte. */
  function Value(b: byte): nat {
    Weight(b & 0x80 != 0, 128) + Weight(b & 0x40 != 0, 64) + Weight(b & 0x20 != 0, 32) + Weight(b & 0x10 != 0, 16)
    + Weight(b & 0x08 != 0, 8) + Weight(b & 0x04 != 0, 4) + Weight(b & 0x02 != 0, 2) + Weight(b & 0x01 != 0, 1)
  }

  lemma Halves(d: nat, weight: nat)
    ensures d == 2 * (d / 2) + d % 2 && Weight(d % 2 == 1, weight) == (d % 2) * weight
  {
  }

  /** The bits of `d`, weighted, add up to `d`. */
  ghost function Weighted(d: nat): nat {
    var d1 := d / 2; var d2 := d1 / 2; var d3 := d2 / 2; var d4 := d3 / 2; var d5 := d4 / 2; var d6 := d5 / 2; var d7 := d6 / 2;
    Weight(d7 % 2 == 1, 128) + Weight(d6 % 2 == 1, 64) + Weight(d5 % 2 == 1, 32) + Weight(d4 % 2 == 1, 16)
      + Weight(d3 % 2 == 1, 8) + Weight(d2 % 2 == 1, 4) + Weight(d1 % 2 == 1, 2) + Weight(d % 2 == 1, 1)
  }

  lemma WeightedIsValue(d: nat)
    requires d < 256
    ensures Weighted(d) == d
  {
    hide Weight;
    var d1 := d / 2; var d2 := d1 / 2; var d3 := d2 / 2; var d4 := d3 / 2; var d5 := d4 / 2; var d6 := d5 / 2; var d7 := d6 / 2;
    Halves(d, 1);
    Halves(d1, 2);
    Halves(d2, 4);
    Halves(d3, 8);
    Halves(d4, 16);
    Halves(d5, 32);
    Halves(d6, 64);
    Halves(d7, 128);
    assert d7 / 2 == 0;
  }

  lemma DigitBits(d: nat)
    ensures Value(Digit(d)) == Weighted(d)
  {
    hide Bit, Weight;
    var d1 := d / 2; var d2 := d1 / 2; var d3 := d2 / 2; var d4 := d3 / 2; var d5 := d4 / 2; var d6 := d5 / 2; var d7 := d6 / 2;
    BitsBack(d7 % 2 == 1, d6 % 2 == 1, d5 % 2 == 1, d4 % 2 == 1, d3 % 2 == 1, d2 % 2 == 1, d1 % 2 == 1, d % 2 == 1);
  }

  lemma DigitValue(d: nat)
    requires d < 256
    ensures Value(Digit(d)) == d
  {
    hide Value, Digit, Weighted;
    DigitBits(d);
    WeightedIsValue(d);
  }

  /** `writeUInt32BE` of a length: its four digits to base 256. */
  function LengthField(n: nat): seq<byte>
    requires n < LIMIT
  {
    var n1 := n / 256; var n2 := n1 / 256; var n3 := n2 / 256;
    [Digit(n3), Digit(n2 % 256), Digit(n1 % 256), Digit(n % 256)]
  }

  function FieldLength(b: seq<byte>): nat
    requires |b| == 4
  {
    Value(b[0]) * 0x100_0000 + Value(b[1]) * 0x1_0000 + Value(b[2]) * 256 + Value(b[3])
  }

  lemma LengthRoundTrip(n: nat)
    requires n < LIMIT
    ensures |LengthField(n)| == 4 && FieldLength(LengthField(n)) == n
  {
    hide Digit, Value;
    var n1 := n / 256; var n2 := n1 / 256; var n3 := n2 / 256;
    DigitValue(n3);
    DigitValue(n2 % 256);
    DigitValue(n1 % 256);
    DigitValue(n % 256);
  }

  /** Length, type, data and CRC; None where the length does not fit its field and the write throws. */
  function Chunk(kind: seq<byte>, data: seq<byte>): Option<seq<byte>> {
    if |data| >= LIMIT then None
    else Some(LengthField(|data|) + kind + data + BigEndian(Crc(kind + data)))
  }

  /** Where the fields of a chunk stand. */
  lemma ChunkLayout(kind: seq<byte>, data: seq<byte>)
    requires |kind| == 4
    ensures Chunk(kind, data).Some? <==> |data| < LIMIT
    ensures Chunk(kind, data).Some? ==>
      var c := Chunk(kind, data).value;
      && |c| == 12 + |data| && FieldLength(c[..4]) == |data| && c[4..8] == kind && c[8..8 + |data|] == data
      && FromBigEndian(c[8 + |data|..]) == Crc(kind + data)
  {
    hide LengthField, FieldLength, BigEndian, FromBigEndian, Crc;
    if |data| < LIMIT {
      LengthRoundTrip(|data|);
      BigEndianRoundTrip(Crc(kind + data));
      var c := Chunk(kind, data).value;
      assert c[..4] == LengthField(|data|) && c[8 + |data|..] == BigEndian(Crc(kind + data));
    }
  }

  datatype Read = Read(kind: seq<byte>, data: seq<byte>, rest: seq<byte>)

  /** A reader of section 3.2 of RFC 2083: four bytes of length, four of type, the data, and a CRC that must agree. */
  function ReadChunk(b: seq<byte>): Option<Read> {
    if |b| < 12 then None
    else
      var n := FieldLength(b[..4]);
      if |b| < 12 + n then None
      else
        var kind, data, crc := b[4..8], b[8..8 + n], b[8 + n..12 + n];
        if FromBigEndian(crc) == Crc(kind + data) then Some(Read(kind, data, b[12 + n..])) else None
  }

  /** Reading a chunk whose fields are given: accepted exactly when the CRC field agrees. */
  lemma ReadFields(kind: seq<byte>, data: seq<byte>, crc: bv32, rest: seq<byte>)
    requires |kind| == 4 && |data| < LIMIT
    ensures ReadChunk(LengthField(|data|) + kind + data + BigEndian(crc) + rest) ==
      if crc == Crc(kind + data) then Some(Read(kind, data, rest)) else None
  {
    hide LengthField, FieldLength, BigEndian, FromBigEndian, Crc;
    var n := |data|;
    BigEndianRoundTrip(crc);
    LengthRoundTrip(n);
    var b := LengthField(n) + kind + data + BigEndian(crc) + rest;
    assert |b| >= 12 + n;
    assert b[..4] == LengthField(n);
    assert b[4..8] == kind;
    assert b[8..8 + n] == data;
    assert b[8 + n..12 + n] == BigEndian(crc);
    assert b[12 + n..] == rest;
  }

  /** A written chunk reads back, whatever follows it. */
  lemma ChunkRoundTrip(kind: seq<byte>, data: seq<byte>, rest: seq<byte>)
    requires |kind| == 4 && |data| < LIMIT
    ensures Chunk(kind, data).Some? && ReadChunk(Chunk(kind, data).value + rest) == Some(Read(kind, data, rest))
  {
    hide LengthField, BigEndian, Crc, ReadChunk;
    ReadFields(kind, data, Crc(kind + data), rest);
  }

  /** A chunk whose type or data was changed inside 32 consecutive bits is rejected. */
  lemma DamagedChunkRejected(kind: seq<byte>, data: seq<byte>, kind': seq<byte>, data': seq<byte>, at: nat, rest: seq<byte>)
    requires |kind| == |kind'| == 4 && |data| == |data'| < LIMIT
    requires DifferInBurst(kind + data, kind' + data', at)
    ensures ReadChunk(LengthField(|data|) + kind' + data' + BigEndian(Crc(kind + data)) + rest) == None
  {
    hide LengthField, BigEndian, Crc, ReadChunk;
    ReadFields(kind', data', Crc(kind + data), rest);
    BurstDetected(kind + data, kind' + data', at);
  }

  lemma SmallDigits()
    ensures Digit(0) == 0 && Digit(1) == 1 && Digit(2) == 2 && Digit(3) == 3 && Digit(4) == 4
  {
  }

  /** Lengths and CRCs are written with the highest byte first. */
  lemma FieldOrder()
    ensures LengthField(0x0102_0304) == [1, 2, 3, 4] && BigEndian(0x0102_0304) == [1, 2, 3, 4]
  {
    SmallDigits();
    hide Digit;
    var n := 0x0102_0304;
    assert n / 256 == 0x01_0203 && 0x01_0203 / 256 == 0x0102 && 0x0102 / 256 == 1;
    assert n % 256 == 4 && 0x01_0203 % 256 == 3 && 0x0102 % 256 == 2;
  }
}
