/** scrypt_N_R_1_256: scrypt (RFC 7914 section 6) with p = 1, the input as both
    password and salt, and 32 bytes of output. */
module ScryptHash {
  import opened Bits
  import opened Memory
  import opened ScryptSpec
  import Smix
  import HmacSpec
  import HmacLaws
  import Sha256Spec
  import Hmac

  function Scrypt(salsa: Core, passwd: seq<byte>, salt: seq<byte>, N: nat, r: nat, dkLen: nat): (dk: seq<byte>)
    requires r >= 1 && N >= 1
    ensures |dk| == dkLen
  {
    HmacSpec.Pbkdf2(passwd, RoMixOctets(salsa, HmacSpec.Pbkdf2(passwd, salt, 1, 128 * r), r, N), 1, dkLen)
  }

  /** A key of 32 octets in applications of HMAC: 4r of them make the block that is mixed, and one more over the
      mixed block makes the key. */
  lemma KeyByMacs(salsa: Core, passwd: seq<byte>, salt: seq<byte>, N: nat, r: nat, block: seq<byte>)
    requires r >= 1 && N >= 1 && |block| == 128 * r
    requires forall i :: 0 <= i < 4 * r ==>
      block[32 * i..32 * i + 32] == HmacSpec.Hmac(passwd, salt + Sha256Spec.Be32Enc(i + 1))
    ensures Scrypt(salsa, passwd, salt, N, r, 32)
      == HmacSpec.Hmac(passwd, RoMixOctets(salsa, block, r, N) + [0, 0, 0, 1])
  {
    hide HmacSpec.Pbkdf2, HmacSpec.Hmac, RoMixOctets;
    var b := HmacSpec.Pbkdf2(passwd, salt, 1, 32 * (4 * r));
    forall i | 0 <= i < 4 * r ensures block[32 * i..32 * i + 32] == b[32 * i..32 * i + 32] {
      HmacLaws.DerivedKeyBlocks(passwd, salt, 4 * r, i);
    }
    SameBlocks(block, b, 4 * r);
    HmacLaws.FirstDerivedBlock(passwd, RoMixOctets(salsa, block, r, N));
  }

  lemma SameBlocks(a: seq<byte>, b: seq<byte>, n: nat)
    requires |a| == |b| == 32 * n
    requires forall i :: 0 <= i < n ==> a[32 * i..32 * i + 32] == b[32 * i..32 * i + 32]
    ensures a == b
  {
    forall p | 0 <= p < 32 * n ensures a[p] == b[p] {
      var i := p / 32;
      assert a[32 * i..32 * i + 32][p - 32 * i] == b[32 * i..32 * i + 32][p - 32 * i];
    }
  }

  /** The scratchpad is cut into B, X, Y, Z and V. N is a power of two greater than one. */
  method ScryptN(salsa: Core, input: seq<byte>, output: array<byte>, N: nat, r: nat, ghost m: nat)
    requires r >= 1 && output.Length == 32 && N == Pow2(m) && 1 <= m <= 63
    modifies output
    ensures output[..] == Scrypt(salsa, input, input, N, r, 32)
  {
    hide HmacSpec.Pbkdf2, RoMixOctets, Pow2;
    var B := new byte[128 * r];
    var X, Y := new uint32[32 * r], new uint32[32 * r];
    var Z := new uint32[16];
    var V := new uint32[N * (32 * r)];
    Hmac.Pbkdf2(input, input, 1, B, 128 * r);
    assert B[..] == HmacSpec.Pbkdf2(input, input, 1, 128 * r);
    Smix.Smix(salsa, B, r, N, V, X, Y, Z, m);
    Hmac.Pbkdf2(input, B[..], 1, output, 32);
  }
}
