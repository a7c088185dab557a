/** Keyed BLAKE2s (RFC 7693 section 3.3) for any compression function. */
module Blake2sSpec {
  import opened Bits
  import opened Memory
  import opened ScryptSpec

  type Chain = s: seq<uint32> | |s| == 8 witness seq(8, _ => 0)
  type Block = b: seq<byte> | |b| == 64 witness Zeros(64)

  /** h, t[0], t[1], f[0], f[1] and the message block, as the source's compression function reads
      them from its state. */
  type Compression = (Chain, uint32, uint32, uint32, uint32, Block) -> Chain

  const IV: Chain :=
    [0x6A09E667, 0xBB67AE85, 0x3C6EF372, 0xA54FF53A, 0x510E527F, 0x9B05688C, 0x1F83D9AB, 0x5BE0CD19]

  /** The function F of section 3.2: a 64-bit offset counter and a final flag. */
  function F(g: Compression, h: Chain, m: Block, t: nat, final: bool): Chain {
    g(h, t % 0x1_0000_0000, t / 0x1_0000_0000 % 0x1_0000_0000, if final then 0xFFFF_FFFF else 0, 0, m)
  }

  /** The parameter block's first word, xored into the first chaining word. */
  function Start(keyLength: byte, digestLength: byte): Chain {
    var p: int, k: int := digestLength, keyLength;
    [Xor32(IV[0], p + 0x100 * k + 0x101_0000)] + IV[1..]
  }

  /** All blocks but the last, then the last one filled with zeros and flagged. `t` bytes came before. */
  function Absorb(g: Compression, h: Chain, data: seq<byte>, t: nat): Chain
    decreases |data|
  {
    if |data| <= 64 then
      F(g, h, data + Zeros(64 - |data|), t + |data|, true)
    else
      Absorb(g, F(g, h, data[..64], t + 64, false), data[64..], t + 64)
  }

  /** BLAKE2s of `input` (RFC 7693 section 3.3): the key fills a block in front of the input, and without a
      key there is no such block. The RFC allows keys of up to 32 octets. */
  function Blake2s(g: Compression, key: seq<byte>, input: seq<byte>, digestLength: byte): seq<byte>
    requires |key| <= 64 && digestLength <= 32
  {
    var data := if key == [] then input else key + Zeros(64 - |key|) + input;
    ToOctets(Absorb(g, Start(|key|, digestLength), data, 0))[..digestLength]
  }

  /** What the source hashes: a key block always comes first. */
  function Keyed(g: Compression, key: seq<byte>, input: seq<byte>, digestLength: byte): (digest: seq<byte>)
    requires |key| <= 64 && digestLength <= 32
    ensures |digest| == digestLength
  {
    var h := Absorb(g, Start(|key|, digestLength), key + Zeros(64 - |key|) + input, 0);
    ToOctets(h)[..digestLength]
  }

  // ----- chaining block by block -----

  /** The chaining value after the first k blocks, none of them final. */
  function Chained(g: Compression, h: Chain, data: seq<byte>, k: nat): Chain
    requires 64 * k <= |data|
  {
    if k == 0 then h
    else F(g, Chained(g, h, data, k - 1), data[64 * (k - 1)..64 * k], 64 * k, false)
  }

  /** Absorbing may be cut after any number of complete blocks that something follows. */
  lemma {:induction false} AbsorbAfter(g: Compression, h: Chain, data: seq<byte>, k: nat)
    requires 64 * k < |data| || k == 0
    ensures Absorb(g, h, data, 0) == Absorb(g, Chained(g, h, data, k), data[64 * k..], 64 * k)
  {
    hide F;
    if k == 0 {
      assert data[0..] == data;
    } else {
      AbsorbAfter(g, h, data, k - 1);
      var rest := data[64 * (k - 1)..];
      assert rest[..64] == data[64 * (k - 1)..64 * k];
      assert rest[64..] == data[64 * k..];
    }
  }

  /** Chaining looks at the blocks chained so far only. */
  lemma {:induction false} ChainedPrefix(g: Compression, h: Chain, data: seq<byte>, more: seq<byte>, k: nat)
    requires 64 * k <= |data|
    ensures Chained(g, h, data + more, k) == Chained(g, h, data, k)
  {
    hide F;
    if k > 0 {
      ChainedPrefix(g, h, data, more, k - 1);
      assert (data + more)[64 * (k - 1)..64 * k] == data[64 * (k - 1)..64 * k];
    }
  }

  // ----- a counter of one word -----

  /** The source never carries into t[1]: its compression function sees zero there. */
  function LowCounter(g: Compression): Compression {
    (h: Chain, t0: uint32, t1: uint32, f0: uint32, f1: uint32, m: Block) => g(h, t0, 0, f0, f1, m)
  }

  lemma {:induction false} LowAbsorb(g: Compression, h: Chain, data: seq<byte>, t: nat)
    requires t + |data| < 0x1_0000_0000
    ensures Absorb(LowCounter(g), h, data, t) == Absorb(g, h, data, t)
    decreases |data|
  {
    if |data| > 64 {
      assert (t + 64) / 0x1_0000_0000 == 0;
      assert F(LowCounter(g), h, data[..64], t + 64, false) == F(g, h, data[..64], t + 64, false);
      LowAbsorb(g, F(g, h, data[..64], t + 64, false), data[64..], t + 64);
    }
  }

  /** A compression function that shows one octet of the counter: the lowest, or the lowest of the high word. */
  function Telltale(high: bool): Compression {
    (h: Chain, t0: uint32, t1: uint32, f0: uint32, f1: uint32, m: Block) =>
      [(if high then t1 else t0) % 0x100] + Zeros(7)
  }

  lemma {:induction false} LastCounterShows(low: bool, high: bool, h: Chain, data: seq<byte>, t: nat)
    ensures
      var g := if low then LowCounter(Telltale(high)) else Telltale(high);
      Absorb(g, h, data, t)[0]
        == if high then (if low then 0 else (t + |data|) / 0x1_0000_0000 % 0x1_0000_0000 % 0x100)
           else (t + |data|) % 0x1_0000_0000 % 0x100
    decreases |data|
  {
    if |data| > 64 {
      var g := if low then LowCounter(Telltale(high)) else Telltale(high);
      LastCounterShows(low, high, F(g, h, data[..64], t + 64, false), data[64..], t + 64);
    }
  }

  lemma {:induction false} FirstOctet(w: seq<uint32>)
    requires w != []
    ensures ToOctets(w)[0] == w[0] % 0x100
  {
    if |w| > 1 {
      FirstOctet(w[..|w| - 1]);
    }
  }

  ghost predicate AlwaysBlake2s(key: seq<byte>, input: seq<byte>, digestLength: byte)
    requires |key| <= 64 && digestLength <= 32
  {
    forall g: Compression :: Keyed(LowCounter(g), key, input, digestLength) == Blake2s(g, key, input, digestLength)
  }

  /** For inputs whose length is a 32-bit number, the source computes BLAKE2s whatever the compression function
      is, exactly when there is a key and the key block and the input together stay below 2^32 octets. */
  lemma CounterIsEnough(key: seq<byte>, input: seq<byte>, digestLength: byte)
    requires |key| <= 64 && 1 <= digestLength <= 32 && |input| < 0x1_0000_0000
    ensures AlwaysBlake2s(key, input, digestLength) <==> |key| > 0 && |input| + 64 < 0x1_0000_0000
  {
    if key == [] {
      EmptyKeyDiffers(input, digestLength);
    } else if |input| + 64 < 0x1_0000_0000 {
      hide Absorb, Start;
      var data := key + Zeros(64 - |key|) + input;
      forall g: Compression
        ensures Keyed(LowCounter(g), key, input, digestLength) == Blake2s(g, key, input, digestLength)
      {
        LowAbsorb(g, Start(|key|, digestLength), data, 0);
      }
    } else {
      LongInputDiffers(key, input, digestLength);
    }
  }

  /** Without a key the extra block is counted, and the low counter octet gives it away. */
  lemma EmptyKeyDiffers(input: seq<byte>, digestLength: byte)
    requires 1 <= digestLength <= 32
    ensures !AlwaysBlake2s([], input, digestLength)
  {
    hide Absorb, Start;
    var g, start := Telltale(false), Start(0, digestLength);
    var data := [] + Zeros(64) + input;
    LastCounterShows(true, false, start, data, 0);
    LastCounterShows(false, false, start, input, 0);
    FirstOctet(Absorb(LowCounter(g), start, data, 0));
    FirstOctet(Absorb(g, start, input, 0));
    LowOctets(|input|);
    assert Keyed(LowCounter(g), [], input, digestLength)[0] != Blake2s(g, [], input, digestLength)[0];
  }

  lemma LowOctets(n: nat)
    ensures (64 + n) % 0x1_0000_0000 % 0x100 != n % 0x1_0000_0000 % 0x100
  {
    LowOctet(n);
    LowOctet(64 + n);
  }

  lemma LowOctet(n: nat)
    ensures n % 0x1_0000_0000 % 0x100 == n % 0x100
  {
    var q := n / 0x1_0000_0000;
    assert n == (n % 0x1_0000_0000 / 0x100 + q * 0x100_0000) * 0x100 + n % 0x1_0000_0000 % 0x100;
  }

  /** At 2^32 octets the carry is missing, and the high counter word gives it away. */
  lemma LongInputDiffers(key: seq<byte>, input: seq<byte>, digestLength: byte)
    requires 1 <= |key| <= 64 && 1 <= digestLength <= 32 && |input| < 0x1_0000_0000 <= |input| + 64
    ensures !AlwaysBlake2s(key, input, digestLength)
  {
    hide Absorb, Start;
    var g, start := Telltale(true), Start(|key|, digestLength);
    var data := key + Zeros(64 - |key|) + input;
    LastCounterShows(true, true, start, data, 0);
    LastCounterShows(false, true, start, data, 0);
    FirstOctet(Absorb(LowCounter(g), start, data, 0));
    FirstOctet(Absorb(g, start, data, 0));
    assert Keyed(LowCounter(g), key, input, digestLength)[0] == 0;
    assert Blake2s(g, key, input, digestLength)[0] == 1;
  }

  // ----- short inputs -----

  /** Up to two blocks without a key, written out: the counters, the final flag and the parameter block. */
  lemma ShortInputs(g: Compression, input: seq<byte>, digestLength: byte)
    requires |input| <= 128 && digestLength <= 32
    ensures
      var start := [Xor32(0x6A09E667, 0x0101_0000 + digestLength as int)] + IV[1..];
      Blake2s(g, [], input, digestLength) ==
        if |input| <= 64 then
          ToOctets(g(start, |input|, 0, 0xFFFF_FFFF, 0, input + Zeros(64 - |input|)))[..digestLength]
        else
          ToOctets(g(g(start, 64, 0, 0, 0, input[..64]), |input|, 0, 0xFFFF_FFFF, 0,
                     input[64..] + Zeros(128 - |input|)))[..digestLength]
  {
    hide ToOctets, Xor32, IV;
    var start := Start(0, digestLength);
    StartWord(0, digestLength);
    if |input| > 64 {
      OneMoreBlock(g, start, input);
      LastBlockOf(g, F(g, start, input[..64], 64, false), input[64..], 64);
    } else {
      LastBlockOf(g, start, input, 0);
    }
    hide Absorb, F, Start;
  }

  lemma StartWord(keyLength: byte, digestLength: byte)
    ensures Start(keyLength, digestLength)
      == [Xor32(0x6A09E667, 0x0101_0000 + 0x100 * (keyLength as int) + digestLength as int)] + IV[1..]
  {
    hide Xor32;
  }

  lemma OneMoreBlock(g: Compression, h: Chain, data: seq<byte>)
    requires |data| > 64
    ensures Absorb(g, h, data, 0) == Absorb(g, F(g, h, data[..64], 64, false), data[64..], 64)
    ensures F(g, h, data[..64], 64, false) == g(h, 64, 0, 0, 0, data[..64])
  {
  }

  lemma LastBlockOf(g: Compression, h: Chain, data: seq<byte>, t: nat)
    requires |data| <= 64 && t + |data| < 0x1_0000_0000
    ensures Absorb(g, h, data, t) == g(h, t + |data|, 0, 0xFFFF_FFFF, 0, data + Zeros(64 - |data|))
  {
  }

  /** A key comes first, in a block of its own, and its length is in the parameter block. */
  lemma KeyedShortInput(g: Compression, key: seq<byte>, input: seq<byte>, digestLength: byte)
    requires 1 <= |key| <= 32 && 1 <= |input| <= 64 && digestLength <= 32
    ensures
      var start := [Xor32(0x6A09E667, 0x0101_0000 + 0x100 * |key| + digestLength as int)] + IV[1..];
      Blake2s(g, key, input, digestLength) ==
        ToOctets(g(g(start, 64, 0, 0, 0, key + Zeros(64 - |key|)), 64 + |input|, 0, 0xFFFF_FFFF, 0,
                   input + Zeros(64 - |input|)))[..digestLength]
  {
    hide ToOctets, Xor32, IV;
    var block := key + Zeros(64 - |key|);
    var start := Start(|key|, digestLength);
    StartWord(|key|, digestLength);
    assert (block + input)[..64] == block && (block + input)[64..] == input;
    OneMoreBlock(g, start, block + input);
    LastBlockOf(g, F(g, start, block, 64, false), input, 64);
    hide Absorb, F, Start;
  }
}
