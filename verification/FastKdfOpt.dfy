/** neoscrypt_fastkdf_opt: BLAKE2s written out for one key block and one input
    block, and the next position summed from words. */
module FastKdfOpt {
  import opened Bits
  import opened Memory
  import opened ScryptSpec
  import opened FastKdfSpec
  import opened FastKdf
  import opened Blake2sSpec

  /** The initialisation vector with the parameter block of a 32-byte key and digest xored in. */
  const IV_P_XOR: Chain :=
    [0x6B08C647, 0xBB67AE85, 0x3C6EF372, 0xA54FF53A, 0x510E527F, 0x9B05688C, 0x1F83D9AB, 0x5BE0CD19]

  lemma StartIsConstant()
    ensures Start(32, 32) == IV_P_XOR
  {
    ConstantBytes();
    Pow2Values();
    hide Xor;
    XorSplits(0x6A09, 0xE667, 0x101, 0x2020, 16);
    XorSplits(0x6A, 0x09, 0x01, 0x01, 8);
    XorSplits(0xE6, 0x67, 0x20, 0x20, 8);
  }

  lemma ConstantBytes()
    ensures Xor(0x6A, 0x01) == 0x6B && Xor(0x09, 0x01) == 0x08
    ensures Xor(0xE6, 0x20) == 0xC6 && Xor(0x67, 0x20) == 0x47
  {
    ConstantDigits();
    assert Pow2(4) == 0x10;
    hide Xor, Pow2;
    XorSplits(0x6, 0xA, 0x0, 0x1, 4);
    XorSplits(0xE, 0x6, 0x2, 0x0, 4);
    XorSplits(0x6, 0x7, 0x2, 0x0, 4);
    XorZero(0x6);
    XorZero(0x7);
  }

  lemma ConstantDigits()
    ensures Xor(0xA, 0x1) == 0xB && Xor(0x9, 0x1) == 0x8 && Xor(0xE, 0x2) == 0xC && Xor(0x6, 0x2) == 0x4
  {
  }

  /** Xor works on the high and the low part of a number separately. */
  lemma {:induction false} XorSplits(a: nat, b: nat, c: nat, d: nat, n: nat)
    requires b < Pow2(n) && d < Pow2(n)
    ensures Xor(a * Pow2(n) + b, c * Pow2(n) + d) == Xor(a, c) * Pow2(n) + Xor(b, d)
  {
    if n > 0 {
      XorSplits(a, b / 2, c, d / 2, n - 1);
      XorSplitsStep(a, b, c, d, Pow2(n - 1));
    } else {
      assert Xor(0, 0) == 0;
    }
  }

  lemma XorSplitsStep(a: nat, b: nat, c: nat, d: nat, p: nat)
    requires Xor(a * p + b / 2, c * p + d / 2) == Xor(a, c) * p + Xor(b / 2, d / 2)
    ensures Xor(a * (2 * p) + b, c * (2 * p) + d) == Xor(a, c) * (2 * p) + Xor(b, d)
  {
    hide Xor;
    HalfOfSplit(a, b, p);
    HalfOfSplit(c, d, p);
    XorHalves(a * (2 * p) + b, c * (2 * p) + d);
    XorHalves(b, d);
    HalfOfSplit(Xor(a, c), Xor(b, d), p);
  }

  lemma HalfOfSplit(a: nat, b: nat, p: nat)
    ensures (a * (2 * p) + b) / 2 == a * p + b / 2 && (a * (2 * p) + b) % 2 == b % 2
  {
    assert a * (2 * p) + b == 2 * (a * p + b / 2) + b % 2;
  }

  /** Two compressions: the key block at offset 64, the input block at 128 with the final flag. */
  function TwoBlocks(g: Compression, input: Input, key: Key): Chain {
    g(g(IV_P_XOR, 64, 0, 0, 0, key + Zeros(32)), 128, 0, 0xFFFF_FFFF, 0, input)
  }

  /** That is keyed BLAKE2s of a 64-byte input under a 32-byte key. */
  lemma TwoBlocksIsKeyed(g: Compression, input: Input, key: Key)
    ensures ToOctets(TwoBlocks(g, input, key)) == BlakePrf(g)(input, key)
  {
    hide IV_P_XOR, Start, ToOctets;
    StartIsConstant();
    var block := key + Zeros(32);
    var data := block + input;
    assert data[..64] == block && data[64..] == input && input + Zeros(0) == input;
    assert Absorb(g, IV_P_XOR, data, 0) == Absorb(g, F(g, IV_P_XOR, block, 64, false), input, 64);
    var digest := ToOctets(TwoBlocks(g, input, key));
    assert digest[..32] == digest;
  }

  /** The flat state: h in S[0..8), t and f in S[8..12), the message block in S[12..28). */
  function Flat(h: Chain, t0: uint32, f0: uint32, m: Block): (S: seq<uint32>)
    ensures |S| == 28
  {
    h + [t0, 0, f0, 0] + ToWords(m)
  }

  lemma FlatParts(h: Chain, t0: uint32, f0: uint32, m: Block)
    ensures
      var S := Flat(h, t0, f0, m);
      S[..8] == h && S[8] == t0 && S[9] == 0 && S[10] == f0 && S[11] == 0 && ToOctets(S[12..28]) == m
  {
    hide ToWords, ToOctets;
    OctetsRoundTrip(m);
    assert Flat(h, t0, f0, m)[12..28] == ToWords(m);
  }

  /** blake2s_compress on the flat state. */
  method Compress(g: Compression, S: array<uint32>, ghost h: Chain, ghost t0: uint32, ghost f0: uint32, ghost m: Block)
    requires S.Length == 28 && S[..] == Flat(h, t0, f0, m)
    modifies S
    ensures S[..] == Flat(g(h, t0, 0, f0, 0, m), t0, f0, m)
  {
    hide ToWords, ToOctets;
    FlatParts(h, t0, f0, m);
    assert S[..8] == S[..][..8] && S[12..28] == S[..][12..28];
    CopySeq(S, 0, g(S[..8], S[8], S[9], S[10], S[11], ToOctets(S[12..28])));
  }

  lemma KeyBlockWords(key: Key)
    ensures ToWords(key + Zeros(32)) == ToWords(key) + seq(8, _ => 0)
  {
    var b := key + Zeros(32);
    forall k | 0 <= k < 16
      ensures ToWords(b)[k] == (ToWords(key) + seq(8, _ => 0))[k]
    {
      if k < 8 {
        assert b[4 * k..4 * k + 4] == key[4 * k..4 * k + 4];
      }
    }
  }

  /** The inlined compressions on the state S: two blocks, the second one final. */
  method InlineBlake(g: Compression, S: array<uint32>, key: Key, input: Input)
    requires S.Length == 28
    modifies S
    ensures S[..8] == TwoBlocks(g, input, key)
  {
    hide IV_P_XOR, ToWords, ToOctets;
    CopySeq(S, 0, IV_P_XOR);
    CopySeq(S, 8, seq(4, _ => 0));
    CopySeq(S, 12, ToWords(key));
    CopySeq(S, 20, seq(8, _ => 0));
    S[8] := 64;
    KeyBlockWords(key);
    assert S[..] == Flat(IV_P_XOR, 64, 0, key + Zeros(32));
    Compress(g, S, IV_P_XOR, 64, 0, key + Zeros(32));
    ghost var keyed := g(IV_P_XOR, 64, 0, 0, 0, key + Zeros(32));
    CopySeq(S, 12, ToWords(input));
    S[8] := 128;
    S[10] := 0xFFFF_FFFF;
    assert S[..] == Flat(keyed, 128, 0xFFFF_FFFF, input);
    Compress(g, S, keyed, 128, 0xFFFF_FFFF, input);
    FlatParts(g(keyed, 128, 0, 0xFFFF_FFFF, 0, input), 128, 0xFFFF_FFFF, input);
    assert S[..8] == S[..][..8];
  }

  // ----- the next position -----

  /** A word and its three right shifts add up to its four bytes, as far as the low byte is concerned. */
  lemma ShiftsSumBytes(w: uint32)
    ensures (w + w / 0x100 + w / 0x1_0000 + w / 0x100_0000) % 0x100 == Sum(Le32Enc(w)) % 0x100
  {
    var e := Le32Enc(w);
    SumOfFour(e[0], e[1], e[2], e[3]);
    assert e == [e[0], e[1], e[2], e[3]];
    var b, c, d := w / 0x100, w / 0x1_0000, w / 0x100_0000;
    assert e[3] == d;
    LowBytes(w, b, c, d);
  }

  lemma SumOfFour(a: byte, b: byte, c: byte, d: byte)
    ensures Sum([a, b, c, d]) == a as int + b as int + c as int + d as int
  {
    hide Sum;
    SumOfNone();
    SumOneMore([], a);
    SumOneMore([a], b);
    SumOneMore([a, b], c);
    SumOneMore([a, b, c], d);
    assert [] + [a] == [a] && [a] + [b] == [a, b] && [a, b] + [c] == [a, b, c] && [a, b, c] + [d] == [a, b, c, d];
  }

  lemma SumOfNone()
    ensures Sum([]) == 0
  {
  }

  lemma SumOneMore(p: seq<byte>, b: byte)
    ensures Sum(p + [b]) == Sum(p) + b as int
  {
    assert (p + [b])[..|p + [b]| - 1] == p;
  }

  lemma LowBytes(w: nat, b: nat, c: nat, d: nat)
    ensures (w + b + c + d) % 0x100 == (w % 0x100 + b % 0x100 + c % 0x100 + d % 0x100) % 0x100
  {
    var k := w / 0x100 + b / 0x100 + c / 0x100 + d / 0x100;
    AddMultiple(w % 0x100 + b % 0x100 + c % 0x100 + d % 0x100, k, 0x100);
  }

  lemma {:induction false} SumAppend(p: seq<byte>, q: seq<byte>)
    ensures Sum(p + q) == Sum(p) + Sum(q)
  {
    if q == [] {
      assert p + q == p;
    } else {
      assert (p + q)[..|p + q| - 1] == p + q[..|q| - 1];
      SumAppend(p, q[..|q| - 1]);
    }
  }

  /** The low byte survives 32-bit additions. */
  lemma AddWord(total: uint32, w: uint32, sum: nat)
    requires total % 0x100 == sum % 0x100
    ensures Add32(Add32(Add32(Add32(total, w), w / 0x100), w / 0x1_0000), w / 0x100_0000) % 0x100
            == (sum + Sum(Le32Enc(w))) % 0x100
  {
    hide Sum, Le32Enc, Add32;
    ShiftsSumBytes(w);
    AddFour(total, w, w / 0x100, w / 0x1_0000, w / 0x100_0000);
    Congruent(total, sum, w + w / 0x100 + w / 0x1_0000 + w / 0x100_0000, Sum(Le32Enc(w)));
  }

  lemma AddFour(x: uint32, a: uint32, b: uint32, c: uint32, d: uint32)
    ensures Add32(Add32(Add32(Add32(x, a), b), c), d) % 0x100 == (x + (a + b + c + d)) % 0x100
  {
    var k1 := LowOfAdd(x, a);
    var k2 := LowOfAdd(Add32(x, a), b);
    var k3 := LowOfAdd(Add32(Add32(x, a), b), c);
    var k4 := LowOfAdd(Add32(Add32(Add32(x, a), b), c), d);
    AddMultiple(Add32(Add32(Add32(Add32(x, a), b), c), d), (k1 + k2 + k3 + k4) * 0x100_0000, 0x100);
  }

  lemma LowOfAdd(x: uint32, y: uint32) returns (k: nat)
    ensures x + y == Add32(x, y) + k * 0x1_0000_0000
  {
    k := if x + y >= 0x1_0000_0000 then 1 else 0;
  }

  lemma Congruent(a: nat, b: nat, c: nat, d: nat)
    requires a % 0x100 == b % 0x100 && c % 0x100 == d % 0x100
    ensures (a + c) % 0x100 == (b + d) % 0x100
  {
    LowBytes(a, c, 0, 0);
    LowBytes(b, d, 0, 0);
  }

  /** The loop over the eight words of the digest. */
  method PointerFromWords(S: array<uint32>) returns (bufptr: nat)
    requires S.Length == 28
    ensures bufptr == Sum(ToOctets(S[..8])) % 256
  {
    hide Sum, Le32Enc, Add32;
    var total: uint32 := 0;
    var j := 0;
    assert Sum(ToOctets(S[..0])) == 0 by { EmptySum(); }
    while j < 8
      invariant 0 <= j <= 8
      invariant total % 0x100 == Sum(ToOctets(S[..j])) % 0x100
    {
      var w := S[j];
      assert S[..j + 1][..j] == S[..j];
      SumAppend(ToOctets(S[..j]), Le32Enc(w));
      AddWord(total, w, Sum(ToOctets(S[..j])));
      total := Add32(Add32(Add32(Add32(total, w), w / 0x100), w / 0x1_0000), w / 0x100_0000);
      j := j + 1;
    }
    Pow2Values();
    MaskIsMod(total, 8);
    bufptr := And(total, 0xFF);
  }

  lemma EmptySum()
    ensures Sum(ToOctets([])) == 0
  {
  }

  // ----- the whole function -----

  /** One turn of the loop; the same contract as the turn of neoscrypt_fastkdf. */
  method TurnOpt(g: Compression, A: array<byte>, B: array<byte>, S: array<uint32>, bufptr: nat) returns (next: nat)
    requires S.Length == 28 && (S as object) != A && (S as object) != B
    requires A != B && Mirrored(A[..], 64) && Mirrored(B[..], 32) && bufptr < 256
    modifies B, S
    ensures Mirrored(B[..], 32)
    ensures Ring(B[..256], next) == Step(BlakePrf(g), A[..256], Ring(old(B[..256]), bufptr))
  {
    hide Read, XorAt, Sum, BlakePrf, TwoBlocks, ToOctets;
    MirroredRead(A[..], 64, bufptr, 64);
    MirroredRead(B[..], 32, bufptr, 32);
    assert A[..][..256] == A[..256] && B[..][..256] == B[..256];
    hide Mirrored;
    SizeOfMirrored64(A[..]);
    SizeOfMirrored(B[..]);
    TwoBlocksIsKeyed(g, A[bufptr..bufptr + 64], B[bufptr..bufptr + 32]);
    InlineBlake(g, S, B[bufptr..bufptr + 32], A[bufptr..bufptr + 64]);
    next := PointerFromWords(S);
    ModifySalt(B, next, ToOctets(S[..8]));
  }

  /** The copies that lay an 80-byte string out over a buffer: three whole ones, 16 bytes, the tail. */
  method LayOut80(p: seq<byte>, buf: array<byte>, tail: nat)
    requires |p| == 80 && tail <= 80 && buf.Length == 256 + tail
    modifies buf
    ensures Mirrored(buf[..], tail) && buf[..256] == Tile(p, 256)
  {
    hide Tile, Mirrored;
    assert p[..80] == p;
    NothingTiled(p, buf[..0]);
    LayTile(buf, p, 0, 80);
    LayTile(buf, p, 1, 80);
    LayTile(buf, p, 2, 80);
    LayTile(buf, p, 3, 16);
    TailMirrors(p, 80, tail);
    CopySeq(buf, 256, p[..tail]);
    assert buf[..] == Tile(p, 256) + p[..tail];
    assert buf[..256] == Tile(p, 256);
  }

  lemma NothingTiled(p: seq<byte>, none: seq<byte>)
    requires p != [] && none == []
    ensures none == Tile(p, 0)
  {
  }

  method LayOut256(p: seq<byte>, buf: array<byte>, tail: nat)
    requires |p| == 256 && tail <= 256 && buf.Length == 256 + tail
    modifies buf
    ensures Mirrored(buf[..], tail) && buf[..256] == Tile(p, 256)
  {
    CopySeq(buf, 0, p);
    CopySeq(buf, 256, p[..tail]);
    assert buf[..] == p + p[..tail];
    assert buf[..256] == p;
    assert p == Tile(p, 256);
  }

  /** neoscrypt_fastkdf_opt: 80 bytes of salt to 256 bytes of output in mode 0, 256 to 32 otherwise.
      The output is that of neoscrypt_fastkdf with 32 iterations. */
  method FastKdfOptimised(g: Compression, password: seq<byte>, salt: seq<byte>, output: array<byte>, mode: nat)
    requires |password| == 80
    requires |salt| == if mode == 0 then 80 else 256
    requires output.Length >= if mode == 0 then 256 else 32
    modifies output
    ensures output[..] == Splice(old(output[..]), 0,
                                 FastKdfSpec.FastKdf(BlakePrf(g), password, salt, 32, if mode == 0 then 256 else 32))
  {
    hide Step, Tile, Mirrored, Splice, XorBytes, Read;
    var A := new byte[320];
    var B := new byte[288];
    var S := new uint32[28];
    LayOut80(password, A, 64);
    var outputLen := 256;
    if mode == 0 {
      LayOut80(salt, B, 32);
    } else {
      outputLen := 32;
      LayOut256(salt, B, 32);
    }
    ghost var a: RingBytes, b: RingBytes := A[..256], B[..256];
    var bufptr := 0;
    var i := 0;
    while i < 32
      invariant 0 <= i <= 32 && bufptr < 256
      invariant Mirrored(A[..], 64) && A[..256] == a && Mirrored(B[..], 32)
      invariant output[..] == old(output[..])
      invariant Ring(B[..256], bufptr) == Run(BlakePrf(g), a, b, i)
    {
      bufptr := TurnOpt(g, A, B, S, bufptr);
      i := i + 1;
    }
    assert A[..outputLen] == a[..outputLen];
    WriteOutput(A, B, bufptr, output, outputLen);
  }
}
