/** HMAC (RFC 2104 section 2) and PBKDF2 (RFC 8018 section 5.2) over SHA-256. */
module HmacSpec {
  import opened Bits
  import opened Memory
  import opened Sha256Spec

  function Repeat(b: byte, n: nat): (r: seq<byte>)
    ensures |r| == n
  {
    seq(n, _ => b)
  }

  /** The key brought to the block length: hashed when longer, then filled up with zeros. */
  function BlockKey(key: seq<byte>): (k: seq<byte>)
    ensures |k| == 64
  {
    var short := if |key| > 64 then Hash(key) else key;
    short + Zeros(64 - |short|)
  }

  function KeyPad(key: seq<byte>, b: byte): (k: seq<byte>)
    ensures |k| == 64
  {
    XorBytes(BlockKey(key), Repeat(b, 64))
  }

  /** RFC 2104 section 2: H(K xor opad, H(K xor ipad, text)). */
  function Hmac(key: seq<byte>, text: seq<byte>): (mac: seq<byte>)
    ensures |mac| == 32
  {
    Hash(KeyPad(key, 0x5c) + Hash(KeyPad(key, 0x36) + text))
  }

  /** U_j of RFC 8018 section 5.2, for block number i. */
  function Iterate(passwd: seq<byte>, salt: seq<byte>, i: nat, j: nat): (u: seq<byte>)
    requires j >= 1
    ensures |u| == 32
  {
    if j == 1 then Hmac(passwd, salt + Be32Enc(i)) else Hmac(passwd, Iterate(passwd, salt, i, j - 1))
  }

  /** F(P, S, c, i): the exclusive-or of U_1 to U_c. */
  function DerivedBlock(passwd: seq<byte>, salt: seq<byte>, c: nat, i: nat): (t: seq<byte>)
    requires c >= 1
    ensures |t| == 32
  {
    if c == 1 then Iterate(passwd, salt, i, 1)
    else XorBytes(DerivedBlock(passwd, salt, c - 1, i), Iterate(passwd, salt, i, c))
  }

  /** T_1 || ... || T_n. */
  function DerivedBlocks(passwd: seq<byte>, salt: seq<byte>, c: nat, n: nat): (t: seq<byte>)
    requires c >= 1
    ensures |t| == 32 * n
  {
    if n == 0 then [] else DerivedBlocks(passwd, salt, c, n - 1) + DerivedBlock(passwd, salt, c, n)
  }

  function BlocksNeeded(dkLen: nat): (n: nat)
    ensures 32 * n >= dkLen && (n > 0 ==> 32 * (n - 1) < dkLen)
  {
    (dkLen + 31) / 32
  }

  /** The first dkLen octets of the concatenated blocks. */
  function Pbkdf2(passwd: seq<byte>, salt: seq<byte>, c: nat, dkLen: nat): (dk: seq<byte>)
    requires c >= 1
    ensures |dk| == dkLen
  {
    DerivedBlocks(passwd, salt, c, BlocksNeeded(dkLen))[..dkLen]
  }
}
