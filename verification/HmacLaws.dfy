/** What HMAC and PBKDF2 give in the cases that can be written out. */
module HmacLaws {
  import opened Bits
  import opened Memory
  import opened Sha256Spec
  import opened HmacSpec

  /** RFC 2104 section 2 for a key of at most a block, the pads written out. */
  lemma ShortKeyMac(key: seq<byte>, text: seq<byte>)
    requires |key| <= 64
    ensures
      var filled := key + seq(64 - |key|, _ => 0);
      var inner := seq(64, i requires 0 <= i < 64 => Xor8(filled[i], 0x36));
      var outer := seq(64, i requires 0 <= i < 64 => Xor8(filled[i], 0x5c));
      Hmac(key, text) == Hash(outer + Hash(inner + text))
  {
    hide Hash, Xor8;
    var filled := key + seq(64 - |key|, _ => 0);
    assert KeyPad(key, 0x36) == seq(64, i requires 0 <= i < 64 => Xor8(filled[i], 0x36));
    assert KeyPad(key, 0x5c) == seq(64, i requires 0 <= i < 64 => Xor8(filled[i], 0x5c));
  }

  /** A longer key stands for its hash. */
  lemma LongKeyMac(key: seq<byte>, text: seq<byte>)
    requires |key| > 64
    ensures Hmac(key, text) == Hmac(Hash(key), text)
  {
    hide Hash, Xor8;
    assert KeyPad(key, 0x36) == KeyPad(Hash(key), 0x36) && KeyPad(key, 0x5c) == KeyPad(Hash(key), 0x5c);
  }

  lemma {:induction false} BlockOfDerived(passwd: seq<byte>, salt: seq<byte>, c: nat, n: nat, i: nat)
    requires c >= 1 && i < n
    ensures DerivedBlocks(passwd, salt, c, n)[32 * i..32 * i + 32] == DerivedBlock(passwd, salt, c, i + 1)
  {
    hide DerivedBlock;
    if i < n - 1 {
      BlockOfDerived(passwd, salt, c, n - 1, i);
      var front := DerivedBlocks(passwd, salt, c, n - 1);
      assert (front + DerivedBlock(passwd, salt, c, n))[32 * i..32 * i + 32] == front[32 * i..32 * i + 32];
    }
  }

  /** Block number i of the derived key, counted from one, for one iteration and for two. */
  lemma DerivedKeyBlocks(passwd: seq<byte>, salt: seq<byte>, n: nat, i: nat)
    requires i < n
    ensures Pbkdf2(passwd, salt, 1, 32 * n)[32 * i..32 * i + 32] == Hmac(passwd, salt + Be32Enc(i + 1))
    ensures
      var u := Hmac(passwd, salt + Be32Enc(i + 1));
      Pbkdf2(passwd, salt, 2, 32 * n)[32 * i..32 * i + 32] == XorBytes(u, Hmac(passwd, u))
  {
    hide Hmac, Be32Enc, XorBytes, DerivedBlocks;
    assert BlocksNeeded(32 * n) == n;
    Whole(DerivedBlocks(passwd, salt, 1, n), 32 * n);
    Whole(DerivedBlocks(passwd, salt, 2, n), 32 * n);
    BlockOfDerived(passwd, salt, 1, n, i);
    BlockOfDerived(passwd, salt, 2, n, i);
  }

  lemma Whole(s: seq<byte>, n: nat)
    requires |s| == n
    ensures s[..n] == s
  {
  }

  /** The first block: the number one in four octets behind the salt. */
  lemma FirstDerivedBlock(passwd: seq<byte>, salt: seq<byte>)
    ensures Pbkdf2(passwd, salt, 1, 32) == Hmac(passwd, salt + [0, 0, 0, 1])
  {
    hide Hmac, Pbkdf2;
    DerivedKeyBlocks(passwd, salt, 1, 0);
    Whole(Pbkdf2(passwd, salt, 1, 32), 32);
    assert Be32Enc(1) == [0, 0, 0, 1];
  }

  /** A shorter key is the beginning of a longer one. */
  lemma ShorterKeyIsPrefix(passwd: seq<byte>, salt: seq<byte>, c: nat, m: nat, n: nat)
    requires c >= 1 && m <= n
    ensures Pbkdf2(passwd, salt, c, m) == Pbkdf2(passwd, salt, c, n)[..m]
  {
    hide DerivedBlock;
    BlocksExtend(passwd, salt, c, BlocksNeeded(m), BlocksNeeded(n));
    var short, long := DerivedBlocks(passwd, salt, c, BlocksNeeded(m)), DerivedBlocks(passwd, salt, c, BlocksNeeded(n));
    assert short[..m] == long[..|short|][..m] == long[..m] == long[..n][..m];
  }

  lemma {:induction false} BlocksExtend(passwd: seq<byte>, salt: seq<byte>, c: nat, m: nat, n: nat)
    requires c >= 1 && m <= n
    ensures DerivedBlocks(passwd, salt, c, m) == DerivedBlocks(passwd, salt, c, n)[..32 * m]
  {
    hide DerivedBlock;
    if m < n {
      BlocksExtend(passwd, salt, c, m, n - 1);
    }
  }
}
