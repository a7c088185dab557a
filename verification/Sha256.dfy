/** The streaming hash of sha256.h: a buffered context with a bit counter split
    over two 32-bit words. */
module Sha256 {
  import opened Bits
  import opened Memory
  import opened Sha256Spec
  import opened Sha256Transform

  // ----- counting bits in two words -----

  ghost predicate CountsBits(count0: nat, count1: nat, length: nat) {
    && count0 < 0x1_0000_0000 && count1 < 0x1_0000_0000
    && count0 * 0x1_0000_0000 + count1 == 8 * length % 0x1_0000_0000_0000_0000
  }

  /** The counter update of SHA256_Update: the low words are added, a low result below the addend
      means a carry. */
  lemma CarryIsExact(count0: uint32, count1: uint32, length: nat, n: nat, bits0: uint32, bits1: uint32)
    requires CountsBits(count0, count1, length)
    requires bits1 == 8 * n % 0x1_0000_0000
    requires bits0 == n / 0x2000_0000 % 0x1_0000_0000
    ensures CountsBits(Add32(if Add32(count1, bits1) < bits1 then Add32(count0, 1) else count0, bits0),
                       Add32(count1, bits1), length + n)
  {
    var q := 8 * length / 0x1_0000_0000_0000_0000;
    var a := n / 0x2000_0000;
    DivModUnique(8 * n, 0x1_0000_0000, a, 8 * (n % 0x2000_0000));
    TwoWordSum(count0, count1, bits0, bits1, q, a / 0x1_0000_0000, 8 * length, 8 * n);
  }

  /** Adding two 64-bit residues word by word. */
  lemma TwoWordSum(a0: uint32, a1: uint32, b0: uint32, b1: uint32, p: nat, q: nat, x: nat, y: nat)
    requires x == p * 0x1_0000_0000_0000_0000 + a0 * 0x1_0000_0000 + a1
    requires y == q * 0x1_0000_0000_0000_0000 + b0 * 0x1_0000_0000 + b1
    ensures
      var low := Add32(a1, b1);
      var high := Add32(if low < b1 then Add32(a0, 1) else a0, b0);
      high * 0x1_0000_0000 + low == (x + y) % 0x1_0000_0000_0000_0000
  {
    var low := Add32(a1, b1);
    var carry := if low < b1 then 1 else 0;
    assert a1 + b1 == carry * 0x1_0000_0000 + low;
    var high := Add32(if low < b1 then Add32(a0, 1) else a0, b0);
    var over := if a0 + carry + b0 >= 0x1_0000_0000 then 1 else 0;
    assert a0 + carry + b0 == over * 0x1_0000_0000 + high;
    DivModUnique(x + y, 0x1_0000_0000_0000_0000, p + q + over, high * 0x1_0000_0000 + low);
  }

  /** The number of buffered bytes is read off the low counter word. */
  lemma BufferedFromCount(count0: nat, count1: nat, length: nat)
    requires CountsBits(count0, count1, length)
    ensures count1 / 8 % 64 == length % 64
  {
    var q := 8 * length / 0x1_0000_0000_0000_0000;
    assert 8 * length == q * 0x1_0000_0000_0000_0000 + count0 * 0x1_0000_0000 + count1;
    var k := q * 0x2000_0000_0000_0000 + count0 * 0x2000_0000;
    DivModUnique(count1, 8, length - k, 0);
    var j, r := count1 / 8 / 64, count1 / 8 % 64;
    DivModUnique(length, 64, q * 0x80_0000_0000_0000 + count0 * 0x80_0000 + j, r);
  }

  /** The two words, encoded one after the other, are the 64-bit length field of FIPS 180-4. */
  lemma CountEncodesLength(count0: nat, count1: nat, length: nat)
    requires CountsBits(count0, count1, length)
    ensures Be32Enc(count0) + Be32Enc(count1) == Be64Enc(8 * length % 0x1_0000_0000_0000_0000)
  {
    SplitWord(count0, count1, 0x100_0000, 0x1);
    SplitWord(count0, count1, 0x1_0000, 0x100);
    SplitWord(count0, count1, 0x100, 0x1_0000);
    SplitWord(count0, count1, 1, 0x100_0000);
  }

  /** Dividing a 64-bit value by u * 2^32, or by u modulo 256, looks at one word only. */
  lemma SplitWord(count0: nat, count1: nat, u: nat, v: nat)
    requires count1 < 0x1_0000_0000 && u > 0 && u * v * 0x100 == 0x1_0000_0000
    ensures (count0 * 0x1_0000_0000 + count1) / (u * 0x1_0000_0000) == count0 / u
    ensures (count0 * 0x1_0000_0000 + count1) / u % 0x100 == count1 / u % 0x100
  {
    var x := count0 * 0x1_0000_0000 + count1;
    var g, h := count0 / u, count0 % u;
    assert count0 == g * u + h;
    assert x == g * (u * 0x1_0000_0000) + (h * 0x1_0000_0000 + count1);
    DivModUnique(x, u * 0x1_0000_0000, g, h * 0x1_0000_0000 + count1);
    g, h := count1 / u, count1 % u;
    var k := count0 * v;
    assert count1 == g * u + h;
    assert count0 * 0x1_0000_0000 == k * 0x100 * u;
    assert x == (k * 0x100 + g) * u + h;
    DivModUnique(x, u, k * 0x100 + g, h);
    DivModUnique(k * 0x100 + g, 0x100, k + g / 0x100, g % 0x100);
  }

  // ----- what a partial block means -----

  function TailStart(m: seq<byte>): (t: nat)
    ensures t <= |m| && t % 64 == 0 && |m| - t == |m| % 64
  {
    |m| - |m| % 64
  }

  lemma SplitTail(m: seq<byte>, s: seq<byte>)
    ensures FoldBlocks(INITIAL, m + s) == FoldBlocks(FoldBlocks(INITIAL, m[..TailStart(m)]), m[TailStart(m)..] + s)
    ensures FoldBlocks(INITIAL, m) == FoldBlocks(INITIAL, m[..TailStart(m)])
  {
    hide Compress, INITIAL;
    var w, t := m[..TailStart(m)], m[TailStart(m)..];
    assert m == w + t && m + s == w + (t + s);
    FoldAppend(INITIAL, w, t);
    FoldAppend(INITIAL, w, t + s);
  }

  lemma TailGrows(m: seq<byte>, s: seq<byte>)
    requires |m| % 64 + |s| < 64
    ensures |m + s| % 64 == |m| % 64 + |s|
    ensures TailStart(m + s) == TailStart(m)
    ensures (m + s)[TailStart(m + s)..] == m[TailStart(m)..] + s
  {
    DivModUnique(|m + s|, 64, |m| / 64, |m| % 64 + |s|);
  }

  /** Bytes that do not complete a block only grow the tail. */
  lemma AbsorbShort(m: seq<byte>, s: seq<byte>)
    requires |m| % 64 + |s| < 64
    ensures FoldBlocks(INITIAL, m + s) == FoldBlocks(INITIAL, m)
    ensures (m + s)[TailStart(m + s)..] == m[TailStart(m)..] + s
  {
    hide Compress, INITIAL;
    SplitTail(m, s);
    TailGrows(m, s);
  }

  /** Bytes that complete the block compress it. */
  lemma AbsorbBlock(m: seq<byte>, s: seq<byte>)
    requires |m| % 64 + |s| == 64
    ensures |m[TailStart(m)..] + s| == 64
    ensures FoldBlocks(INITIAL, m + s) == Compress(FoldBlocks(INITIAL, m), m[TailStart(m)..] + s)
  {
    hide Compress, INITIAL;
    SplitTail(m, s);
    var b := m[TailStart(m)..] + s;
    assert b[..64] == b && b[64..] == [];
  }

  lemma AbsorbAligned(m: seq<byte>, block: seq<byte>)
    requires |m| % 64 == 0 && |block| == 64
    ensures FoldBlocks(INITIAL, m + block) == Compress(FoldBlocks(INITIAL, m), block)
  {
    hide Compress, INITIAL, FoldBlocks;
    AbsorbBlock(m, block);
    assert m[TailStart(m)..] + block == block;
  }

  lemma CompleteBlock(m: seq<byte>, s: seq<byte>, block: seq<byte>)
    requires |m| % 64 + |s| == 64 && |block| == 64
    requires block[..|m| % 64] == m[TailStart(m)..] && block[|m| % 64..] == s
    ensures FoldBlocks(INITIAL, m + s) == Compress(FoldBlocks(INITIAL, m), block)
    ensures (|m| + |s|) % 64 == 0
  {
    hide Compress, INITIAL, FoldBlocks;
    AbsorbBlock(m, s);
    var r := |m| % 64;
    assert block == block[..r] + block[r..];
    DivModUnique(|m| + |s|, 64, |m| / 64 + 1, 0);
  }

  lemma EmptyMessage()
    ensures CountsBits(0, 0, 0) && FoldBlocks(INITIAL, []) == INITIAL && TailStart([]) == 0
  {
    hide Compress, INITIAL;
  }

  /** SHA256_CTX. */
  class Context {
    const state: array<Word>
    var count0: uint32
    var count1: uint32
    const buf: array<byte>

    /** Everything hashed since the last Init. */
    ghost var Absorbed: seq<byte>

    ghost const Repr: set<object>

    ghost predicate Allocated()
    {
      && Repr == {this, state, buf}
      && (state as object) != buf && (state as object) != this && (buf as object) != this
      && state.Length == 8 && buf.Length == 64
    }

    /** The state folds the complete blocks, the buffer holds the rest and the counter words
        hold the bit length. */
    ghost predicate Valid()
      reads this, state, buf
    {
      && Allocated()
      && CountsBits(count0, count1, |Absorbed|)
      && state[..] == FoldBlocks(INITIAL, Absorbed)
      && buf[..|Absorbed| % 64] == Absorbed[TailStart(Absorbed)..]
    }

    constructor ()
      ensures Allocated() && fresh(Repr)
    {
      state := new Word[8](_ => 0);
      buf := new byte[64](_ => 0);
      count0, count1 := 0, 0;
      Absorbed := [];
      Repr := {this, state, buf};
    }

    /** SHA256_Init. */
    method Init()
      requires Allocated()
      modifies Repr
      ensures Valid() && Absorbed == []
    {
      hide Compress, INITIAL, FoldBlocks, CountsBits, TailStart;
      EmptyMessage();
      count0, count1 := 0, 0;
      CopySeq(state, 0, INITIAL);
      Absorbed := [];
      assert state[..] == INITIAL;
    }

    /** Adds `n` bytes to the bit counter; `length` bytes were counted before. */
    method Tally(n: nat, ghost length: nat)
      requires CountsBits(count0, count1, length)
      modifies this`count0, this`count1
      ensures CountsBits(count0, count1, length + n)
    {
      var bits1 := 8 * n % 0x1_0000_0000;
      var bits0 := n / 0x2000_0000 % 0x1_0000_0000;
      CarryIsExact(count0, count1, length, n, bits0, bits1);
      hide CountsBits, Add32;
      count1 := Add32(count1, bits1);
      if count1 < bits1 {
        count0 := Add32(count0, 1);
      }
      count0 := Add32(count0, bits0);
    }

    /** The loop over complete blocks in SHA256_Update; `m` is what was absorbed before `src`. */
    method Blocks(src: seq<byte>, start: nat, ghost m: seq<byte>) returns (pos: nat)
      requires Allocated() && start <= |src| && (|m| + start) % 64 == 0
      requires state[..] == FoldBlocks(INITIAL, m + src[..start])
      modifies state
      ensures start <= pos <= |src| && (|m| + pos) % 64 == 0 && |src| - pos < 64
      ensures state[..] == FoldBlocks(INITIAL, m + src[..pos])
    {
      hide Compress, INITIAL, FoldBlocks;
      pos := start;
      while |src| - pos >= 64
        invariant start <= pos <= |src| && (|m| + pos) % 64 == 0
        invariant state[..] == FoldBlocks(INITIAL, m + src[..pos])
      {
        AbsorbAligned(m + src[..pos], src[pos..pos + 64]);
        assert m + src[..pos + 64] == m + src[..pos] + src[pos..pos + 64];
        Transform(state, src[pos..pos + 64]);
        pos := pos + 64;
      }
    }

    /** Keeps bytes that do not complete a block. */
    method Keep(src: seq<byte>, ghost m: seq<byte>, r: nat)
      requires Allocated() && r == |m| % 64 && r + |src| < 64
      requires buf[..r] == m[TailStart(m)..]
      modifies buf
      ensures buf[..|m + src| % 64] == (m + src)[TailStart(m + src)..]
      ensures FoldBlocks(INITIAL, m + src) == FoldBlocks(INITIAL, m)
    {
      hide Compress, INITIAL, FoldBlocks, TailStart;
      TailGrows(m, src);
      AbsorbShort(m, src);
      CopySeq(buf, r, src);
      assert buf[..r + |src|] == old(buf[..r]) + src;
    }

    /** SHA256_Update. */
    method Update(src: seq<byte>)
      requires Valid()
      modifies Repr
      ensures Valid() && Absorbed == old(Absorbed) + src
    {
      hide Compress, INITIAL, FoldBlocks, CountsBits;
      ghost var m := Absorbed;
      var r := count1 / 8 % 64;
      BufferedFromCount(count0, count1, |m|);
      Tally(|src|, |m|);
      Absorbed := m + src;

      if |src| < 64 - r {
        Keep(src, m, r);
        return;
      }

      var pos := 64 - r;
      CopySeq(buf, r, src[..pos]);
      CompleteBlock(m, src[..pos], buf[..]);
      Transform(state, buf[..]);
      pos := Blocks(src, pos, m);
      assert m + src == m + src[..pos] + src[pos..];
      Keep(src[pos..], m + src[..pos], 0);
    }

    /** SHA256_Pad. */
    method Pad()
      requires Valid()
      modifies Repr
      ensures Valid() && Absorbed == Padded(old(Absorbed))
    {
      hide Compress, INITIAL, FoldBlocks, Be32Enc, Be64Enc;
      ghost var m := Absorbed;
      CountEncodesLength(count0, count1, |m|);
      BufferedFromCount(count0, count1, |m|);
      var len := Be32Enc(count0) + Be32Enc(count1);
      var r := count1 / 8 % 64;
      var plen := if r < 56 then 56 - r else 120 - r;
      var PAD := [0x80] + Zeros(63);
      assert plen - 1 == PadZeros(|m|);
      assert PAD[..plen] == [0x80] + Zeros(PadZeros(|m|));
      Update(PAD[..plen]);
      Update(len);
      assert Absorbed == Padded(m);
    }

    /** SHA256_Final: the digest of everything absorbed; the context is cleared. */
    method Final() returns (digest: seq<byte>)
      requires Valid()
      modifies Repr
      ensures digest == Hash(old(Absorbed))
      ensures state[..] == seq(8, _ => 0) && buf[..] == Zeros(64) && count0 == count1 == 0
    {
      hide Compress, INITIAL, FoldBlocks, Padded;
      Pad();
      digest := EncodeWords(state);
      count0, count1 := 0, 0;
      CopySeq(state, 0, seq(8, _ => 0));
      Erase(buf, 0, 64);
    }

    /** memcpy of the whole structure. */
    method CopyFrom(other: Context)
      requires Allocated() && other.Valid() && Repr !! other.Repr
      modifies Repr
      ensures Valid() && Absorbed == other.Absorbed
    {
      hide Compress, INITIAL, FoldBlocks;
      CopySeq(state, 0, other.state[..]);
      CopySeq(buf, 0, other.buf[..]);
      count0, count1 := other.count0, other.count1;
      Absorbed := other.Absorbed;
      assert buf[..] == other.buf[..];
      assert state[..] == other.state[..];
    }
  }

  /** be32enc_vect. */
  method EncodeWords(words: array<Word>) returns (r: seq<byte>)
    ensures r == Be32EncAll(words[..])
  {
    r := [];
    var i := 0;
    while i < words.Length
      invariant 0 <= i <= words.Length
      invariant r == Be32EncAll(words[..i])
    {
      assert words[..i + 1][..i] == words[..i];
      r := r + Be32Enc(words[i]);
      i := i + 1;
    }
    assert words[..words.Length] == words[..];
  }
}
