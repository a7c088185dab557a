/** neoscrypt_blake2s: a two-block buffer that compresses a block only once more
    input is known to follow. */
module Blake2s {
  import opened Bits
  import opened Memory
  import opened ScryptSpec
  import opened Blake2sSpec

  /** blake2s_state. */
  class State {
    const h: array<uint32>
    var t0: uint32
    var t1: uint32
    var f0: uint32
    var f1: uint32
    const buf: array<byte>
    var buflen: nat

    const g: Compression
    ghost const Initial: Chain
    ghost var Absorbed: seq<byte>
    ghost var K: nat

    ghost predicate Allocated()
    {
      h.Length == 8 && buf.Length == 128 && (h as object) != buf
    }

    /** K blocks are chained, the rest is in the buffer. */
    ghost predicate Buffered()
      reads this, h, buf
    {
      && Allocated()
      && 64 * K <= |Absorbed| <= 64 * K + 128
      && (K > 0 ==> |Absorbed| >= 64 * K + 64)
      && buflen == |Absorbed| - 64 * K
      && h[..] == Chained(LowCounter(g), Initial, Absorbed, K)
      && buf[..buflen] == Absorbed[64 * K..]
      && t0 == 64 * K % 0x1_0000_0000 && t1 == 0 && f0 == 0 && f1 == 0
    }

    /** Between calls a block is chained only if more than one block followed it. */
    ghost predicate Valid()
      reads this, h, buf
    {
      Buffered() && (K > 0 ==> |Absorbed| > 64 * K + 64)
    }

    /** Initialise: the vector with the parameter block xored in. */
    constructor (g: Compression, keyLength: byte, digestLength: byte)
      ensures Valid() && Absorbed == [] && fresh(h) && fresh(buf)
      ensures this.g == g && Initial == Start(keyLength, digestLength)
    {
      var start := Start(keyLength, digestLength);
      h := new uint32[8](i requires 0 <= i < 8 => start[i]);
      buf := new byte[128](_ => 0);
      t0, t1, f0, f1, buflen := 0, 0, 0, 0, 0;
      this.g := g;
      Initial := start;
      Absorbed, K := [], 0;
      new;
      assert h[..] == start;
    }

    /** blake2s_compress. */
    method Compress()
      requires Allocated()
      modifies h
      ensures h[..] == g(old(h[..]), t0, t1, f0, f1, buf[..64])
    {
      CopySeq(h, 0, g(h[..], t0, t1, f0, f1, buf[..64]));
    }

    /** Appends a piece that fits into the buffer. */
    method Append(piece: seq<byte>)
      requires Buffered() && buflen + |piece| <= 128
      modifies this`buflen, this`Absorbed, buf
      ensures Buffered() && K == old(K)
      ensures Absorbed == old(Absorbed) + piece
    {
      hide F;
      ChainedPrefix(LowCounter(g), Initial, Absorbed, piece, K);
      assert (Absorbed + piece)[64 * K..] == Absorbed[64 * K..] + piece;
      hide Chained;
      CopySeq(buf, buflen, piece);
      assert buf[..buflen + |piece|] == old(buf[..buflen]) + piece;
      buflen := buflen + |piece|;
      Absorbed := Absorbed + piece;
    }

    /** The buffer is full: chain its first block and move the second one down. */
    method Shift()
      requires Buffered() && buflen == 128
      modifies this`t0, this`buflen, this`K, h, buf
      ensures Buffered() && buflen == 64
    {
      hide Chained;
      t0 := Add32(t0, 64);
      ChainOne(g, Initial, Absorbed, K);
      assert buf[..64] == buf[..128][..64] == Absorbed[64 * K..64 * (K + 1)];
      assert buf[64..128] == buf[..128][64..] == Absorbed[64 * (K + 1)..];
      Compress();
      Copy(buf, 0, buf, 64, 64);
      buflen := buflen - 64;
      K := K + 1;
    }

    /** blake2s_update. */
    method Update(input: seq<byte>)
      requires Valid()
      modifies this`t0, this`buflen, this`Absorbed, this`K, h, buf
      ensures Valid() && Absorbed == old(Absorbed) + input
    {
      hide Chained;
      ghost var before := Absorbed;
      var rest := input;
      while |rest| > 0
        invariant Buffered() && Absorbed + rest == before + input
        invariant rest == [] ==> Valid()
        decreases |rest|, buflen
      {
        var fill := 128 - buflen;
        if |rest| > fill {
          Append(rest[..fill]);
          rest := rest[fill..];
          Shift();
        } else {
          Append(rest);
          rest := [];
        }
      }
    }

    /** Finish: at most one more plain block, then the flagged one. */
    method Finish()
      requires Valid()
      modifies this, h, buf
      ensures h[..] == old(Absorb(LowCounter(g), Initial, Absorbed, 0))
    {
      hide Chained, Absorb;
      if buflen > 64 {
        ShiftShort();
      }
      AbsorbAfter(LowCounter(g), Initial, Absorbed, K);
      LastBlock(g, h[..], Absorbed[64 * K..], 64 * K);
      t0 := Add32(t0, buflen);
      f0 := 0xFFFF_FFFF;
      Erase(buf, buflen, 128 - buflen);
      assert buf[..64] == Absorbed[64 * K..] + Zeros(64 - buflen);
      Compress();
    }

    /** The first half of Finish: more than one block is buffered, not necessarily two. */
    method ShiftShort()
      requires Valid() && buflen > 64
      modifies this`t0, this`buflen, this`K, h, buf
      ensures Allocated() && buflen <= 64 && 64 * K < |Absorbed|
      ensures buflen == |Absorbed| - 64 * K
      ensures h[..] == Chained(LowCounter(g), Initial, Absorbed, K)
      ensures buf[..buflen] == Absorbed[64 * K..] && t0 == 64 * K % 0x1_0000_0000
    {
      hide Chained, F;
      ghost var before, after := Absorbed[64 * K..], Absorbed[64 * (K + 1)..];
      assert before[..64] == Absorbed[64 * K..64 * (K + 1)] && before[64..] == after;
      assert buf[..64] == buf[..buflen][..64] && buf[64..buflen] == buf[..buflen][64..];
      t0 := Add32(t0, 64);
      ChainOne(g, Initial, Absorbed, K);
      Compress();
      assert buf[64..buflen] == after;
      buflen := buflen - 64;
      Copy(buf, 0, buf, 64, buflen);
      K := K + 1;
    }
  }

  lemma ChainOne(g: Compression, h: Chain, data: seq<byte>, k: nat)
    requires 64 * (k + 1) <= |data|
    ensures Chained(LowCounter(g), h, data, k + 1)
      == g(Chained(LowCounter(g), h, data, k), Add32(64 * k % 0x1_0000_0000, 64), 0, 0, 0,
           data[64 * k..64 * (k + 1)])
    ensures Add32(64 * k % 0x1_0000_0000, 64) == 64 * (k + 1) % 0x1_0000_0000
  {
    AddModulo(64 * k, 64);
  }

  lemma LastBlock(g: Compression, h: Chain, data: seq<byte>, t: nat)
    requires |data| <= 64
    ensures Absorb(LowCounter(g), h, data, t)
      == g(h, Add32(t % 0x1_0000_0000, |data|), 0, 0xFFFF_FFFF, 0, data + Zeros(64 - |data|))
  {
    AddModulo(t, |data|);
  }

  lemma AddModulo(x: nat, y: uint32)
    ensures Add32(x % 0x1_0000_0000, y) == (x + y) % 0x1_0000_0000
  {
  }

  /** neoscrypt_blake2s. The key fills a block and the output fits the chaining value. */
  method Hash(g: Compression, input: seq<byte>, key: seq<byte>, outputSize: byte) returns (output: seq<byte>)
    requires |key| <= 64 && outputSize <= 32
    ensures output == Keyed(LowCounter(g), key, input, outputSize)
  {
    hide Absorb, Start, ToOctets, State.Valid;
    var S := new State(g, |key|, outputSize);
    S.Update(key + Zeros(64 - |key|));
    S.Update(input);
    assert [] + (key + Zeros(64 - |key|)) + input == key + Zeros(64 - |key|) + input;
    S.Finish();
    output := ToOctets(S.h[..])[..outputSize];
  }
}
