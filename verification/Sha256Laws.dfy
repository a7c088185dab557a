/** What the functions and constants of FIPS 180-4 are, bit by bit and number by number. */
module Sha256Laws {
  import opened Bits
  import opened Words
  import opened Sha256Spec

  // ----- section 3.2: shifts and rotations -----

  /** A rotation puts the low bits of the word on top of the others. */
  lemma RotationMovesLowBits(x: Word, n: nat)
    requires 0 < n < 32
    ensures Rotr(x, n) == x / Pow2(n) + x % Pow2(n) * Pow2(32 - n)
  {
    var q, r := Rotated(x, n);
    DivModUnique(x, Pow2(n), q, r);
  }

  /** The same with names for the parts. */
  lemma Rotated(x: Word, n: nat) returns (q: nat, r: nat)
    requires 0 < n < 32
    ensures x == r + q * Pow2(n) && r < Pow2(n) && q < Pow2(32 - n)
    ensures Rotr(x, n) == q + r * Pow2(32 - n)
  {
    Pow2Values();
    Pow2Add(n, 32 - n);
    hide Or, Pow2;
    q, r := Parts(x, Pow2(n));
    LowPart(x, Pow2(n), Pow2(32 - n), q, r);
    OrOfJoin(q, r, 32 - n);
  }

  lemma LowPart(x: nat, p: nat, t: nat, q: nat, r: nat)
    requires t > 0 && x == r + q * p && r < p && x < p * t
    ensures p * t > 0 && x * t % (p * t) == r * t && q < t
  {
    Scaled(r, q, p, t);
    DivModUnique(x * t, p * t, q, r * t);
    if q >= t {
      Scaled(0, q - t, p, 1);
    }
  }

  lemma Scaled(r: nat, q: nat, p: nat, t: nat)
    requires r < p && t > 0
    ensures (r + q * p) * t == q * (p * t) + r * t && r * t < p * t
  {
    assert (p - r) * t > 0;
  }

  lemma RotatedBit(x: nat, y: nat, q: nat, r: nat, n: nat, m: nat, k: nat)
    requires x == r + q * Pow2(n) && r < Pow2(n) && y == q + r * Pow2(m) && q < Pow2(m)
    ensures k < m ==> Bit(y, k) == Bit(x, k + n)
    ensures m <= k < m + n ==> Bit(y, k) == Bit(x, k - m)
  {
    hide Pow2, Bit;
    BitOfJoin(q, r, m, k);
    BitOfParts(x, q, r, n, if k < m then k else k - m);
  }

  lemma TurnedBit(x: Word, n: nat, k: nat)
    requires 0 < n < 32 && k < 32
    ensures Bit(Rotr(x, n), k) == Bit(x, if k < 32 - n then k + n else k + n - 32)
  {
    var q, r := Rotated(x, n);
    var y: nat := Rotr(x, n);
    hide Rotr, Pow2, Bit;
    RotatedBit(x, y, q, r, n, 32 - n, k);
  }

  /** Bit k of a rotated word is the bit n places up, around the end. */
  lemma RotationBit(x: Word, n: nat, k: nat)
    requires 0 < n < 32 && k < 32
    ensures Bit(Rotr(x, n), k) == Bit(x, (k + n) % 32)
  {
    hide Rotr, Bit;
    TurnedBit(x, n, k);
  }

  lemma ShiftBit(x: Word, n: nat, k: nat)
    requires n < 32 && k < 32
    ensures Bit(Shr(x, n), k) == if k + n < 32 then Bit(x, k + n) else 0
  {
    Pow2Values();
    hide Pow2, Bit;
    var q, r := Parts(x, Pow2(n));
    BitOfParts(x, q, r, n, k);
    if k + n >= 32 {
      NoBitAbove(x, 32, k + n);
    }
  }

  // ----- section 4.1.2 -----

  /** Ch chooses and Maj takes the majority, bit by bit. */
  lemma ChoiceAndMajority(x: Word, y: Word, z: Word, k: nat)
    requires k < 32
    ensures Bit(Ch(x, y, z), k) == if Bit(x, k) == 1 then Bit(y, k) else Bit(z, k)
    ensures Bit(Maj(x, y, z), k) == if Bit(x, k) + Bit(y, k) + Bit(z, k) >= 2 then 1 else 0
  {
    Pow2Values();
    hide Bit, And, Xor, Pow2;
    BitOfComplement(x, 32, k);
    BitOfAnd(x, y, k);
    BitOfAnd(Not32(x), z, k);
    BitOfXor(And(x, y), And(Not32(x), z), k);
    BitOfAnd(x, z, k);
    BitOfAnd(y, z, k);
    BitOfXor(And(x, y), And(x, z), k);
    BitOfXor(Xor(And(x, y), And(x, z)), And(y, z), k);
  }

  lemma XorOfThree(u: Word, v: Word, w: Word, k: nat)
    ensures Bit(Xor32(Xor32(u, v), w), k) == (Bit(u, k) + Bit(v, k) + Bit(w, k)) % 2
  {
    hide Bit, Xor;
    BitOfXor(u, v, k);
    BitOfXor(Xor(u, v), w, k);
  }

  /** Every bit of the four sigma functions is a parity of three bits, two for the shifted ones at the top. */
  lemma SigmaBits(x: Word, k: nat)
    requires k < 32
    ensures Bit(BigSigma0(x), k) == (Bit(x, (k + 2) % 32) + Bit(x, (k + 13) % 32) + Bit(x, (k + 22) % 32)) % 2
    ensures Bit(BigSigma1(x), k) == (Bit(x, (k + 6) % 32) + Bit(x, (k + 11) % 32) + Bit(x, (k + 25) % 32)) % 2
    ensures Bit(SmallSigma0(x), k)
      == (Bit(x, (k + 7) % 32) + Bit(x, (k + 18) % 32) + (if k < 29 then Bit(x, k + 3) else 0)) % 2
    ensures Bit(SmallSigma1(x), k)
      == (Bit(x, (k + 17) % 32) + Bit(x, (k + 19) % 32) + (if k < 22 then Bit(x, k + 10) else 0)) % 2
  {
    hide Bit, Rotr, Shr, Xor32;
    XorOfThree(Rotr(x, 2), Rotr(x, 13), Rotr(x, 22), k);
    XorOfThree(Rotr(x, 6), Rotr(x, 11), Rotr(x, 25), k);
    XorOfThree(Rotr(x, 7), Rotr(x, 18), Shr(x, 3), k);
    XorOfThree(Rotr(x, 17), Rotr(x, 19), Shr(x, 10), k);
    RotationBit(x, 2, k); RotationBit(x, 13, k); RotationBit(x, 22, k);
    RotationBit(x, 6, k); RotationBit(x, 11, k); RotationBit(x, 25, k);
    RotationBit(x, 7, k); RotationBit(x, 18, k); ShiftBit(x, 3, k);
    RotationBit(x, 17, k); RotationBit(x, 19, k); ShiftBit(x, 10, k);
  }

  // ----- section 6.2.2 -----

  /** One round in unreduced sums: two variables are new, the others move down. */
  lemma RoundSums(v: Vars, k: Word, w: Word)
    ensures
      var r := Round(v, k, w);
      var t1 := v.h + BigSigma1(v.e) + Ch(v.e, v.f, v.g) + k + w;
      var t2 := BigSigma0(v.a) + Maj(v.a, v.b, v.c);
      && r.a == (t1 + t2) % 0x1_0000_0000 && r.e == (v.d + t1) % 0x1_0000_0000
      && (r.b, r.c, r.d) == (v.a, v.b, v.c) && (r.f, r.g, r.h) == (v.e, v.f, v.g)
  {
    hide BigSigma0, BigSigma1, Ch, Maj, Add32;
    var s, c := BigSigma1(v.e), Ch(v.e, v.f, v.g);
    var t1: nat := v.h + s + c + k + w;
    AddFour(v.h, s, c, k);
    AddReduced(v.h + s + c + k, w);
    NewVariables(v.d, t1, BigSigma0(v.a), Maj(v.a, v.b, v.c));
  }

  lemma NewVariables(d: Word, t1: nat, x: Word, y: Word)
    ensures Add32(t1 % 0x1_0000_0000, Add32(x, y)) == (t1 + (x + y)) % 0x1_0000_0000
    ensures Add32(d, t1 % 0x1_0000_0000) == (d + t1) % 0x1_0000_0000
  {
    hide Add32;
    SmallRemainder(x);
    SmallRemainder(d);
    AddReduced(x, y);
    AddBothReduced(t1, x + y);
    AddBothReduced(d, t1);
  }

  lemma SmallRemainder(x: Word)
    ensures x % 0x1_0000_0000 == x
  {
  }

  /** The schedule in unreduced sums: the words of the block, then each from four earlier ones. */
  lemma ScheduleSums(block: Block, t: nat)
    ensures t < 16 ==> Schedule(block, t) == BigEndian(block[4 * t..4 * t + 4])
    ensures t >= 16 ==>
      (Schedule(block, t)
       == (Schedule(block, t - 16) + SmallSigma0(Schedule(block, t - 15)) + Schedule(block, t - 7)
           + SmallSigma1(Schedule(block, t - 2))) % 0x1_0000_0000)
  {
    hide SmallSigma0, SmallSigma1, BigEndian, Add32;
    if t >= 16 {
      var a, b := SmallSigma1(Schedule(block, t - 2)), Schedule(block, t - 7);
      var c, d := SmallSigma0(Schedule(block, t - 15)), Schedule(block, t - 16);
      AddFour(a, b, c, d);
    } else {
      var p := block[4 * t..4 * t + 4];
      assert p == [p[0], p[1], p[2], p[3]];
      BigEndianOfFour(p[0], p[1], p[2], p[3]);
    }
  }

  /** The variables start as the hash value and are added to it in the end, each to its own word. */
  lemma CompressionSums(state: State, block: Block)
    ensures Rounds(state, block, 0)
      == Vars(state[0], state[1], state[2], state[3], state[4], state[5], state[6], state[7])
    ensures
      var v, r := Rounds(state, block, 64), Compress(state, block);
      && r[0] == (state[0] + v.a) % 0x1_0000_0000 && r[1] == (state[1] + v.b) % 0x1_0000_0000
      && r[2] == (state[2] + v.c) % 0x1_0000_0000 && r[3] == (state[3] + v.d) % 0x1_0000_0000
      && r[4] == (state[4] + v.e) % 0x1_0000_0000 && r[5] == (state[5] + v.f) % 0x1_0000_0000
      && r[6] == (state[6] + v.g) % 0x1_0000_0000 && r[7] == (state[7] + v.h) % 0x1_0000_0000
  {
    hide Round, Schedule, K;
  }

  // ----- sections 5.1.1 and 5.3.3 -----

  lemma EncodedWord(x: Word)
    ensures BigEndian(Be32Enc(x)) == x
  {
    var b, c, d := x / 0x100, x / 0x1_0000, x / 0x100_0000;
    assert c == b / 0x100 && d == c / 0x100;
    BigEndianOfFour(d, c % 0x100, b % 0x100, x % 0x100);
  }

  lemma EncodedLength(x: nat)
    requires x < 0x1_0000_0000_0000_0000
    ensures BigEndian(Be64Enc(x)) == x
  {
    var b, c, d := x / 0x100, x / 0x1_0000, x / 0x100_0000;
    var e, f, g, h := x / 0x1_0000_0000, x / 0x100_0000_0000, x / 0x1_0000_0000_0000, x / 0x100_0000_0000_0000;
    assert c == b / 0x100 && d == c / 0x100 && e == d / 0x100;
    assert f == e / 0x100 && g == f / 0x100 && h == g / 0x100;
    hide BigEndian;
    EightDigits(x, b, c, d, e, f, g, h);
  }

  lemma EightDigits(a: nat, b: nat, c: nat, d: nat, e: nat, f: nat, g: nat, h: nat)
    requires b == a / 0x100 && c == b / 0x100 && d == c / 0x100 && e == d / 0x100
    requires f == e / 0x100 && g == f / 0x100 && h == g / 0x100 && h < 0x100
    ensures BigEndian([h, g % 0x100, f % 0x100, e % 0x100, d % 0x100, c % 0x100, b % 0x100, a % 0x100]) == a
  {
    hide BigEndian;
    BigEndianOfEight(h, g % 0x100, f % 0x100, e % 0x100, d % 0x100, c % 0x100, b % 0x100, a % 0x100);
    BigEndianOfFour(h, g % 0x100, f % 0x100, e % 0x100);
    BigEndianOfFour(d % 0x100, c % 0x100, b % 0x100, a % 0x100);
  }

  /** The padded message: the message, one bit, as few zeros as complete the block, and the length in bits. */
  lemma PaddedParts(msg: seq<byte>)
    ensures
      var p, n := Padded(msg), |msg|;
      && |p| % 64 == 0 && n + 9 <= |p| < n + 9 + 64
      && p[..n] == msg && p[n] == 0x80 && (forall i :: n < i < |p| - 8 ==> p[i] == 0)
      && BigEndian(p[|p| - 8..]) == 8 * n % 0x1_0000_0000_0000_0000
  {
    EncodedLength(8 * |msg| % 0x1_0000_0000_0000_0000);
    hide Be64Enc, BigEndian;
    var p := Padded(msg);
    assert p[|p| - 8..] == Be64Enc(8 * |msg| % 0x1_0000_0000_0000_0000);
  }

  lemma {:induction false} EncodedWords(words: seq<Word>, i: nat)
    requires i < |words|
    ensures BigEndian(Be32EncAll(words)[4 * i..4 * i + 4]) == words[i]
  {
    hide BigEndian, Be32Enc;
    var n := |words| - 1;
    if i < n {
      EncodedWords(words[..n], i);
      assert Be32EncAll(words)[4 * i..4 * i + 4] == Be32EncAll(words[..n])[4 * i..4 * i + 4];
    } else {
      EncodedWord(words[n]);
      assert Be32EncAll(words)[4 * n..4 * n + 4] == Be32Enc(words[n]);
    }
  }

  /** A message that fits one block: the digest is the encoded compression of its padding. */
  lemma OneBlockHash(msg: seq<byte>, i: nat)
    requires |msg| <= 55 && i < 8
    ensures |Padded(msg)| == 64
      && BigEndian(Hash(msg)[4 * i..4 * i + 4]) == Compress(INITIAL, Padded(msg))[i]
  {
    hide BigEndian, Be32EncAll, Compress, INITIAL;
    PaddedParts(msg);
    var p := Padded(msg);
    assert p[..64] == p && p[64..] == [];
    assert FoldBlocks(INITIAL, p) == Compress(INITIAL, p) by {
      assert FoldBlocks(Compress(INITIAL, p), []) == Compress(INITIAL, p);
    }
    EncodedWords(FoldBlocks(INITIAL, p), i);
  }
}
