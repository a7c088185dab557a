/** SHA-256 as FIPS 180-4 defines it: the padding of section 5.1.1, the message
    schedule and compression of section 6.2.2, and the fold over the blocks. */
module Sha256Spec {
  import opened Bits
  import opened Memory

  type Word = uint32

  type Row = s: seq<Word> | |s| == 8 witness seq(8, _ => 0)

  const ROUND_CONSTANTS: seq<Row> :=
    [
      [0x428a2f98, 0x71374491, 0xb5c0fbcf, 0xe9b5dba5, 0x3956c25b, 0x59f111f1, 0x923f82a4, 0xab1c5ed5],
      [0xd807aa98, 0x12835b01, 0x243185be, 0x550c7dc3, 0x72be5d74, 0x80deb1fe, 0x9bdc06a7, 0xc19bf174],
      [0xe49b69c1, 0xefbe4786, 0x0fc19dc6, 0x240ca1cc, 0x2de92c6f, 0x4a7484aa, 0x5cb0a9dc, 0x76f988da],
      [0x983e5152, 0xa831c66d, 0xb00327c8, 0xbf597fc7, 0xc6e00bf3, 0xd5a79147, 0x06ca6351, 0x14292967],
      [0x27b70a85, 0x2e1b2138, 0x4d2c6dfc, 0x53380d13, 0x650a7354, 0x766a0abb, 0x81c2c92e, 0x92722c85],
      [0xa2bfe8a1, 0xa81a664b, 0xc24b8b70, 0xc76c51a3, 0xd192e819, 0xd6990624, 0xf40e3585, 0x106aa070],
      [0x19a4c116, 0x1e376c08, 0x2748774c, 0x34b0bcb5, 0x391c0cb3, 0x4ed8aa4a, 0x5b9cca4f, 0x682e6ff3],
      [0x748f82ee, 0x78a5636f, 0x84c87814, 0x8cc70208, 0x90befffa, 0xa4506ceb, 0xbef9a3f7, 0xc67178f2]
    ]

  function K(t: nat): Word
    requires t < 64
  {
    ROUND_CONSTANTS[t / 8][t % 8]
  }

  // ----- functions of section 4.1.2 -----

  function Shr(x: Word, n: nat): Word
    requires n < 32
  {
    Quotient(x, Pow2(n))
  }

  function Rotr(x: Word, n: nat): Word
    requires 0 < n < 32
  {
    Or32(Shr(x, n), x * Pow2(32 - n) % 0x1_0000_0000)
  }

  function Ch(x: Word, y: Word, z: Word): Word {
    Xor32(And32(x, y), And32(Not32(x), z))
  }

  function Maj(x: Word, y: Word, z: Word): Word {
    Xor32(Xor32(And32(x, y), And32(x, z)), And32(y, z))
  }

  function BigSigma0(x: Word): Word {
    Xor32(Xor32(Rotr(x, 2), Rotr(x, 13)), Rotr(x, 22))
  }

  function BigSigma1(x: Word): Word {
    Xor32(Xor32(Rotr(x, 6), Rotr(x, 11)), Rotr(x, 25))
  }

  function SmallSigma0(x: Word): Word {
    Xor32(Xor32(Rotr(x, 7), Rotr(x, 18)), Shr(x, 3))
  }

  function SmallSigma1(x: Word): Word {
    Xor32(Xor32(Rotr(x, 17), Rotr(x, 19)), Shr(x, 10))
  }

  // ----- big-endian encodings -----

  function Be32Dec(p: seq<byte>): Word
    requires |p| == 4
  {
    var a: int, b: int, c: int, d: int := p[0], p[1], p[2], p[3];
    0x100_0000 * a + 0x1_0000 * b + 0x100 * c + d
  }

  /** The four octets of a 32-bit value, most significant first. */
  function Be32Enc(x: nat): (r: seq<byte>)
    ensures |r| == 4
  {
    [x / 0x100_0000 % 0x100, x / 0x1_0000 % 0x100,
     x / 0x100 % 0x100, x % 0x100]
  }

  /** The eight octets of a 64-bit value, most significant first. */
  function Be64Enc(x: nat): (r: seq<byte>)
    ensures |r| == 8
  {
    [x / 0x100_0000_0000_0000 % 0x100, x / 0x1_0000_0000_0000 % 0x100,
     x / 0x100_0000_0000 % 0x100, x / 0x1_0000_0000 % 0x100,
     x / 0x100_0000 % 0x100, x / 0x1_0000 % 0x100,
     x / 0x100 % 0x100, x % 0x100]
  }

  function Be32EncAll(words: seq<Word>): (r: seq<byte>)
    ensures |r| == 4 * |words|
  {
    if words == [] then [] else Be32EncAll(words[..|words| - 1]) + Be32Enc(words[|words| - 1])
  }

  // ----- section 6.2.2 -----

  type Block = b: seq<byte> | |b| == 64 witness Zeros(64)
  type State = s: seq<Word> | |s| == 8 witness seq(8, _ => 0)

  datatype Vars = Vars(a: Word, b: Word, c: Word, d: Word, e: Word, f: Word, g: Word, h: Word)

  /** Step 1: the message schedule. */
  function Schedule(block: Block, t: nat): Word {
    if t < 16 then
      Be32Dec(block[4 * t..4 * t + 4])
    else
      Add32(Add32(Add32(SmallSigma1(Schedule(block, t - 2)), Schedule(block, t - 7)),
                  SmallSigma0(Schedule(block, t - 15))),
            Schedule(block, t - 16))
  }

  /** Step 3: one round, every working variable moves down one place. */
  function Round(v: Vars, k: Word, w: Word): Vars {
    var t1 := Add32(Add32(Add32(Add32(v.h, BigSigma1(v.e)), Ch(v.e, v.f, v.g)), k), w);
    var t2 := Add32(BigSigma0(v.a), Maj(v.a, v.b, v.c));
    Vars(Add32(t1, t2), v.a, v.b, v.c, Add32(v.d, t1), v.e, v.f, v.g)
  }

  /** The working variables after the first `n` rounds. */
  function Rounds(state: State, block: Block, n: nat): Vars
    requires n <= 64
  {
    if n == 0 then
      Vars(state[0], state[1], state[2], state[3], state[4], state[5], state[6], state[7])
    else
      Round(Rounds(state, block, n - 1), K(n - 1), Schedule(block, n - 1))
  }

  /** Step 4: the intermediate hash value. */
  function AddVars(s: State, v: Vars): (r: State)
  {
    [Add32(s[0], v.a), Add32(s[1], v.b), Add32(s[2], v.c), Add32(s[3], v.d),
     Add32(s[4], v.e), Add32(s[5], v.f), Add32(s[6], v.g), Add32(s[7], v.h)]
  }

  function Compress(state: State, block: Block): State {
    AddVars(state, Rounds(state, block, 64))
  }

  // ----- sections 5.1.1 and 5.3.3 and the hash itself -----

  const INITIAL: State :=
    [0x6A09E667, 0xBB67AE85, 0x3C6EF372, 0xA54FF53A, 0x510E527F, 0x9B05688C, 0x1F83D9AB, 0x5BE0CD19]

  /** The least number of zero octets after the octet 0x80 that brings the length to 56 modulo 64. */
  function PadZeros(len: nat): (z: nat)
    ensures (len + 1 + z) % 64 == 56 && z < 64
  {
    (119 - len % 64) % 64
  }

  lemma PaddedLength(len: nat)
    ensures (len + 1 + PadZeros(len) + 8) % 64 == 0
  {
  }

  /** Section 5.1.1. The standard hashes messages of fewer than 2^64 bits; the length field of a
      longer one keeps the low 64 bits. */
  function Padded(msg: seq<byte>): (r: seq<byte>)
    ensures |r| % 64 == 0
  {
    PaddedLength(|msg|);
    msg + [0x80] + Zeros(PadZeros(|msg|)) + Be64Enc(8 * |msg| % 0x1_0000_0000_0000_0000)
  }

  /** Compresses every complete block of `data`; a shorter rest is left alone. */
  function FoldBlocks(state: State, data: seq<byte>): State
    decreases |data|
  {
    if |data| < 64 then state else FoldBlocks(Compress(state, data[..64]), data[64..])
  }

  function Hash(msg: seq<byte>): (digest: seq<byte>)
    ensures |digest| == 32
  {
    Be32EncAll(FoldBlocks(INITIAL, Padded(msg)))
  }

  // ----- laws -----

  /** Whole blocks may be folded first. */
  lemma {:induction false} FoldAppend(state: State, a: seq<byte>, b: seq<byte>)
    requires |a| % 64 == 0
    ensures FoldBlocks(state, a + b) == FoldBlocks(FoldBlocks(state, a), b)
    decreases |a|
  {
    hide Compress;
    if |a| == 0 {
      assert a + b == b;
    } else {
      assert (a + b)[..64] == a[..64];
      assert (a + b)[64..] == a[64..] + b;
      FoldAppend(Compress(state, a[..64]), a[64..], b);
    }
  }
}
