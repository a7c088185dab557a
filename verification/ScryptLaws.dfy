/** What the definitions of RFC 7914 give where they can be written out. */
module ScryptLaws {
  import opened Bits
  import opened Memory
  import opened Words
  import opened ScryptSpec
  import NeoScrypt

  // ----- octets and words -----

  lemma EncodedWordLe(x: uint32)
    ensures LittleEndianOctets(Le32Enc(x)) == x
  {
    var b, c, d := x / 0x100, x / 0x1_0000, x / 0x100_0000;
    assert c == b / 0x100 && d == c / 0x100;
    LittleEndianOfFour(x % 0x100, b % 0x100, c % 0x100, d);
  }

  /** Words are stored with the least significant octet first, in order. */
  lemma {:induction false} OctetsOfWords(w: seq<uint32>, k: nat)
    requires k < |w|
    ensures LittleEndianOctets(ToOctets(w)[4 * k..4 * k + 4]) == w[k]
  {
    hide LittleEndianOctets, Le32Enc;
    var n := |w| - 1;
    if k < n {
      OctetsOfWords(w[..n], k);
      assert ToOctets(w)[4 * k..4 * k + 4] == ToOctets(w[..n])[4 * k..4 * k + 4];
    } else {
      EncodedWordLe(w[n]);
      assert ToOctets(w)[4 * n..4 * n + 4] == Le32Enc(w[n]);
    }
  }

  // ----- one and two blocks of 128 octets -----

  /** scryptBlockMix for r = 1: each half is xored with the one mixed before it, the first with the last. */
  lemma BlockMixOfOne(h: Core, b: seq<uint32>)
    requires |b| == 32
    ensures
      var y0 := h(XorWords(b[16..32], b[0..16]));
      var y1 := h(XorWords(y0, b[16..32]));
      BlockMix(h, b, 1) == y0 + y1
  {
    var y0 := h(XorWords(b[16..32], b[0..16]));
    var y1 := h(XorWords(y0, b[16..32]));
    assert Mixed(h, b, 1, 1) == y0;
    assert Mixed(h, b, 1, 2) == y1;
    hide Mixed;
    var c: seq<uint32> := y0[..] + y1[..];
    assert CellAt(c, 0) == y0 && CellAt(c, 1) == y1;
    BlockMixByCells(h, b, 1, c);
  }

  /** For r = 2 the even ones come first. */
  lemma BlockMixOfTwo(h: Core, b: seq<uint32>)
    requires |b| == 64
    ensures
      var y0 := h(XorWords(b[48..64], b[0..16]));
      var y1 := h(XorWords(y0, b[16..32]));
      var y2 := h(XorWords(y1, b[32..48]));
      var y3 := h(XorWords(y2, b[48..64]));
      BlockMix(h, b, 2) == y0 + y2 + y1 + y3
  {
    var y0 := h(XorWords(b[48..64], b[0..16]));
    var y1 := h(XorWords(y0, b[16..32]));
    var y2 := h(XorWords(y1, b[32..48]));
    var y3 := h(XorWords(y2, b[48..64]));
    assert Mixed(h, b, 2, 1) == y0;
    assert Mixed(h, b, 2, 2) == y1;
    assert Mixed(h, b, 2, 3) == y2;
    assert Mixed(h, b, 2, 4) == y3;
    hide Mixed;
    var c: seq<uint32> := y0[..] + y2[..] + y1[..] + y3[..];
    assert CellAt(c, 0) == y0 && CellAt(c, 1) == y2 && CellAt(c, 2) == y1 && CellAt(c, 3) == y3;
    BlockMixByCells(h, b, 2, c);
  }

  /** scryptROMix for N = 2: the table holds the input and its mix; then twice the parity of the last block's first
      word picks an entry, which is xored in before mixing. */
  lemma RoMixOfTwo(h: Core, b: seq<uint32>, r: nat)
    requires r >= 1 && |b| == 32 * r
    ensures
      var v1 := BlockMix(h, b, r);
      var x0 := BlockMix(h, v1, r);
      var x1 := BlockMix(h, XorWords(x0, if x0[16 * (2 * r - 1)] % 2 == 0 then b else v1), r);
      var x2 := BlockMix(h, XorWords(x1, if x1[16 * (2 * r - 1)] % 2 == 0 then b else v1), r);
      RoMix(h, b, r, 2) == x2
  {
    var v1 := BlockMix(h, b, r);
    var x0 := BlockMix(h, v1, r);
    var x1 := BlockMix(h, XorWords(x0, if x0[16 * (2 * r - 1)] % 2 == 0 then b else v1), r);
    hide BlockMix, XorWords, Integerify, Walk, Vector;
    FirstVectors(h, b, r);
    PickOfTwo(h, b, r, x0);
    PickOfTwo(h, b, r, x1);
    WalkOn(h, b, r, 2, 1);
    WalkOn(h, b, r, 2, 2);
  }

  lemma FirstVectors(h: Core, b: seq<uint32>, r: nat)
    requires r >= 1 && |b| == 32 * r
    ensures Vector(h, b, r, 0) == b && Vector(h, b, r, 1) == BlockMix(h, b, r)
    ensures Walk(h, b, r, 2, 0) == BlockMix(h, BlockMix(h, b, r), r)
  {
    hide BlockMix;
  }

  lemma WalkOn(h: Core, b: seq<uint32>, r: nat, N: nat, n: nat)
    requires r >= 1 && |b| == 32 * r && N >= 1 && n >= 1
    ensures
      var x := Walk(h, b, r, N, n - 1);
      Walk(h, b, r, N, n) == BlockMix(h, XorWords(x, Vector(h, b, r, Integerify(x, r) % N)), r)
  {
    hide BlockMix, XorWords, Integerify, Vector;
  }

  lemma PickOfTwo(h: Core, b: seq<uint32>, r: nat, x: seq<uint32>)
    requires r >= 1 && |b| == |x| == 32 * r
    ensures Vector(h, b, r, Integerify(x, r) % 2)
      == if x[16 * (2 * r - 1)] % 2 == 0 then b else BlockMix(h, b, r)
  {
    FirstVectors(h, b, r);
    LastParity(x, r);
    hide BlockMix, Integerify, Vector;
  }

  lemma LastParity(x: seq<uint32>, r: nat)
    requires r >= 1 && |x| == 32 * r
    ensures Integerify(x, r) % 2 == x[16 * (2 * r - 1)] % 2
  {
    var c := CellAt(x, 2 * r - 1);
    assert c[0] == x[16 * (2 * r - 1)];
    assert LittleEndian(c) == c[0] + 0x1_0000_0000 * LittleEndian(c[1..]);
  }

  // ----- NeoScrypt's engine -----

  /** Single mixing is Salsa's alone; double mixing is the xor of both single ones. */
  lemma WhichMixer(salsa: Core, chacha: Core, x: seq<uint32>, r: nat, N: nat)
    requires r >= 1 && |x| == 32 * r && N >= 1
    ensures NeoScrypt.Engine(salsa, chacha, x, r, N, false) == RoMix(salsa, x, r, N)
    ensures
      var both := NeoScrypt.Engine(salsa, chacha, x, r, N, true);
      forall i :: 0 <= i < |x| ==> both[i] == Xor32(RoMix(salsa, x, r, N)[i], RoMix(chacha, x, r, N)[i])
  {
  }
}
