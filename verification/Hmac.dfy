/** HMAC_SHA256_CTX and PBKDF2_SHA256 of sha256.h. */
module Hmac {
  import opened Bits
  import opened Memory
  import Spec = HmacSpec
  import opened Sha256Spec
  import opened Sha256

  /** Xoring only the key's own bytes into a block of `b` is xoring the zero-filled key. */
  lemma PadIsKeyPad(pad: seq<byte>, key: seq<byte>, short: seq<byte>, b: byte)
    requires |pad| == 64
    requires short == if |key| > 64 then Hash(key) else key
    requires forall i :: 0 <= i < 64 ==> pad[i] == if i < |short| then Xor8(b, short[i]) else b
    ensures pad == Spec.KeyPad(key, b)
  {
    hide Hash, Xor;
    forall i | 0 <= i < 64
      ensures pad[i] == Spec.KeyPad(key, b)[i]
    {
      if i < |short| {
        XorCommutes(b, short[i]);
      } else {
        XorZero(b);
      }
    }
  }

  /** memset(pad, b, 64) followed by the loop that xors the key bytes in. */
  method MakePad(short: seq<byte>, b: byte, ghost key: seq<byte>) returns (pad: seq<byte>)
    requires short == if |key| > 64 then Hash(key) else key
    ensures pad == Spec.KeyPad(key, b)
  {
    hide Hash, Xor;
    var p := new byte[64](_ => b);
    var i := 0;
    while i < |short|
      invariant 0 <= i <= |short|
      invariant forall j :: 0 <= j < 64 ==> p[j] == if j < i then Xor8(b, short[j]) else b
    {
      p[i] := Xor8(p[i], short[i]);
      i := i + 1;
    }
    pad := p[..];
    PadIsKeyPad(pad, key, short, b);
  }

  /** HMAC_SHA256_CTX: an inner and an outer hash under way. */
  class Context {
    const ictx: Sha256.Context
    const octx: Sha256.Context

    ghost var Key: seq<byte>
    ghost var Text: seq<byte>
    ghost const Repr: set<object>

    ghost predicate Allocated()
    {
      && ictx.Allocated() && octx.Allocated() && ictx.Repr !! octx.Repr
      && this !in ictx.Repr && this !in octx.Repr
      && Repr == {this} + ictx.Repr + octx.Repr
    }

    /** The inner hash has seen the inner pad and the text, the outer hash the outer pad only. */
    ghost predicate Valid()
      reads this, ictx, ictx.state, ictx.buf, octx, octx.state, octx.buf
    {
      && Allocated() && ictx.Valid() && octx.Valid()
      && ictx.Absorbed == Spec.KeyPad(Key, 0x36) + Text
      && octx.Absorbed == Spec.KeyPad(Key, 0x5c)
    }

    constructor ()
      ensures Allocated() && fresh(Repr)
    {
      var i := new Sha256.Context();
      var o := new Sha256.Context();
      ictx, octx := i, o;
      Key, Text := [], [];
      Repr := {this} + i.Repr + o.Repr;
    }

    /** HMAC_SHA256_Init. */
    method Init(key: seq<byte>)
      requires Allocated()
      modifies Repr
      ensures Valid() && Key == key && Text == []
    {
      hide Hash, Spec.KeyPad, Sha256.Context.Valid;
      var K := key;
      if |key| > 64 {
        ictx.Init();
        ictx.Update(key);
        K := ictx.Final();
        assert [] + key == key;
      }
      ictx.Init();
      var pad := MakePad(K, 0x36, key);
      ictx.Update(pad);
      octx.Init();
      pad := MakePad(K, 0x5c, key);
      octx.Update(pad);
      Key, Text := key, [];
    }

    /** HMAC_SHA256_Update. */
    method Update(src: seq<byte>)
      requires Valid()
      modifies Repr
      ensures Valid() && Key == old(Key) && Text == old(Text) + src
    {
      hide Spec.KeyPad, Sha256.Context.Valid;
      assert ictx.Absorbed + src == Spec.KeyPad(Key, 0x36) + (Text + src);
      ictx.Update(src);
      Text := Text + src;
    }

    /** HMAC_SHA256_Final; both inner contexts are cleared. */
    method Final() returns (digest: seq<byte>)
      requires Valid()
      modifies Repr
      ensures digest == Spec.Hmac(old(Key), old(Text))
    {
      hide Hash, Spec.KeyPad, Sha256.Context.Valid;
      var ihash := ictx.Final();
      octx.Update(ihash);
      digest := octx.Final();
    }

    /** memcpy of the whole structure. */
    method CopyFrom(other: Context)
      requires Allocated() && other.Valid() && Repr !! other.Repr
      modifies Repr
      ensures Valid() && Key == other.Key && Text == other.Text
    {
      hide Spec.KeyPad, Sha256.Context.Valid;
      ictx.CopyFrom(other.ictx);
      octx.CopyFrom(other.octx);
      Key, Text := other.Key, other.Text;
    }
  }

  /** One HMAC over a complete text, as the iteration loop runs it. */
  method Mac(hctx: Context, key: seq<byte>, text: seq<byte>) returns (digest: seq<byte>)
    requires hctx.Allocated()
    modifies hctx.Repr
    ensures digest == Spec.Hmac(key, text)
  {
    hide Spec.Hmac, Context.Valid;
    hctx.Init(key);
    hctx.Update(text);
    digest := hctx.Final();
    assert [] + text == text;
  }

  /** U_1: continues a copy of the context that has already seen the password and the salt. */
  method FirstMac(shared: Context, hctx: Context, ivec: seq<byte>) returns (U: seq<byte>)
    requires shared.Valid() && hctx.Allocated() && hctx.Repr !! shared.Repr
    modifies hctx.Repr
    ensures U == Spec.Hmac(old(shared.Key), old(shared.Text) + ivec)
  {
    hide Spec.Hmac, Context.Valid;
    hctx.CopyFrom(shared);
    hctx.Update(ivec);
    U := hctx.Final();
  }

  /** One turn of the inner loop: U_j, xored into T. */
  method Iteration(hctx: Context, passwd: seq<byte>, salt: seq<byte>, i: nat, j: nat, U: seq<byte>, T: array<byte>)
    returns (next: seq<byte>)
    requires hctx.Allocated() && (T as object) !in hctx.Repr && T.Length == 32 && j >= 1
    requires U == Spec.Iterate(passwd, salt, i, j) && T[..] == Spec.DerivedBlock(passwd, salt, j, i)
    modifies hctx.Repr, T
    ensures next == Spec.Iterate(passwd, salt, i, j + 1)
    ensures T[..] == Spec.DerivedBlock(passwd, salt, j + 1, i)
  {
    hide Spec.Hmac, Context.Valid, Xor8, Be32Enc, Context.Allocated;
    next := Mac(hctx, passwd, U);
    assert T[0..32] == T[..];
    XorInto(T, 0, next);
    assert T[..] == XorBytes(Spec.DerivedBlock(passwd, salt, j, i), next);
  }

  /** T_i: the first application continues a copy of the shared context, the others start afresh. */
  method Block(shared: Context, hctx: Context, passwd: seq<byte>, salt: seq<byte>, c: nat, i: nat)
    returns (T: array<byte>)
    requires shared.Valid() && shared.Key == passwd && shared.Text == salt
    requires hctx.Allocated() && hctx.Repr !! shared.Repr
    modifies hctx.Repr
    ensures fresh(T) && T.Length == 32
    ensures T[..] == Spec.DerivedBlock(passwd, salt, if c == 0 then 1 else c, i)
  {
    FirstIterate(passwd, salt, i);
    hide Spec.Hmac, Spec.Iterate, Spec.DerivedBlock, Context.Valid, Context.Allocated, Be32Enc;
    var U := FirstMac(shared, hctx, Be32Enc(i));
    T := new byte[32];
    CopySeq(T, 0, U);
    assert T[..] == U;
    var j := 2;
    while j <= c
      invariant 2 <= j && (c >= 2 ==> j <= c + 1) && (c < 2 ==> j == 2)
      invariant fresh(T) && T.Length == 32
      invariant U == Spec.Iterate(passwd, salt, i, j - 1)
      invariant T[..] == Spec.DerivedBlock(passwd, salt, j - 1, i)
    {
      U := Iteration(hctx, passwd, salt, i, j - 1, U, T);
      j := j + 1;
    }
  }

  lemma FirstIterate(passwd: seq<byte>, salt: seq<byte>, i: nat)
    ensures Spec.Iterate(passwd, salt, i, 1) == Spec.Hmac(passwd, salt + Be32Enc(i))
    ensures Spec.DerivedBlock(passwd, salt, 1, i) == Spec.Iterate(passwd, salt, i, 1)
  {
  }

  function AtMost<X>(s: seq<X>, n: nat): (r: seq<X>)
    ensures |r| <= n
  {
    if |s| <= n then s else s[..n]
  }

  /** The tail of one turn: as much of T as still fits goes behind what was written. */
  method WriteBlock(buf: array<byte>, dkLen: nat, i: nat, T: array<byte>, ghost before: seq<byte>, ghost dk: seq<byte>)
    requires T != buf && T.Length == 32
    requires |dk| == 32 * i < dkLen <= buf.Length == |before|
    requires buf[..] == Splice(before, 0, dk)
    modifies buf
    ensures buf[..] == Splice(before, 0, AtMost(dk + T[..], dkLen))
  {
    var clen := dkLen - i * 32;
    if clen > 32 {
      clen := 32;
    }
    Copy(buf, i * 32, T, 0, clen);
    ExtendPrefix(before, dk, T[..], clen);
    assert T[..][..clen] == T[0..clen];
  }

  /** Writing behind a written prefix extends the prefix. */
  lemma ExtendPrefix<X>(before: seq<X>, dk: seq<X>, t: seq<X>, len: nat)
    requires len <= |t| && |dk| + len <= |before|
    ensures Splice(Splice(before, 0, dk), |dk|, t[..len]) == Splice(before, 0, (dk + t)[..|dk| + len])
  {
  }

  lemma SpliceNothing<X>(before: seq<X>)
    ensures Splice(before, 0, []) == before
  {
  }

  /** One turn of the outer loop: T_{i+1} goes behind the first i blocks. */
  method Turn(shared: Context, hctx: Context, passwd: seq<byte>, salt: seq<byte>, c: nat, i: nat,
              buf: array<byte>, dkLen: nat, ghost count: nat, ghost before: seq<byte>)
    requires shared.Valid() && shared.Key == passwd && shared.Text == salt
    requires hctx.Allocated() && hctx.Repr !! shared.Repr
    requires (buf as object) !in hctx.Repr && 32 * i < dkLen <= buf.Length == |before|
    requires count == (if c == 0 then 1 else c)
    requires buf[..] == Splice(before, 0, AtMost(Spec.DerivedBlocks(passwd, salt, count, i), dkLen))
    modifies hctx.Repr, buf
    ensures buf[..] == Splice(before, 0, AtMost(Spec.DerivedBlocks(passwd, salt, count, i + 1), dkLen))
  {
    hide Splice, Spec.DerivedBlock, Context.Valid, Context.Allocated;
    var T := Block(shared, hctx, passwd, salt, c, i + 1);
    WriteBlock(buf, dkLen, i, T, before, Spec.DerivedBlocks(passwd, salt, count, i));
  }

  /** PBKDF2_SHA256. An iteration count of zero behaves as one. The block number is encoded in four
      octets; RFC 8018 allows dkLen up to 32 * (2^32 - 1), where none is cut off. */
  method Pbkdf2(passwd: seq<byte>, salt: seq<byte>, c: nat, buf: array<byte>, dkLen: nat)
    requires dkLen <= buf.Length
    modifies buf
    ensures buf[..] == Splice(old(buf[..]), 0, Spec.Pbkdf2(passwd, salt, if c == 0 then 1 else c, dkLen))
  {
    hide Splice, Spec.DerivedBlocks, AtMost, Context.Valid;
    var shared := new Context();
    var hctx := new Context();
    shared.Init(passwd);
    shared.Update(salt);
    assert [] + salt == salt;
    ghost var before := buf[..];
    ghost var count := if c == 0 then 1 else c;
    SpliceNothing(before);
    NoBlocks(passwd, salt, count, dkLen);
    var i := 0;
    while i * 32 < dkLen
      invariant i <= Spec.BlocksNeeded(dkLen)
      invariant shared.Valid() && shared.Key == passwd && shared.Text == salt
      invariant hctx.Allocated() && hctx.Repr !! shared.Repr && fresh(hctx.Repr) && fresh(shared.Repr)
      invariant buf[..] == Splice(before, 0, AtMost(Spec.DerivedBlocks(passwd, salt, count, i), dkLen))
    {
      Turn(shared, hctx, passwd, salt, c, i, buf, dkLen, count, before);
      i := i + 1;
    }
    assert i == Spec.BlocksNeeded(dkLen);
    CutOff(Spec.DerivedBlocks(passwd, salt, count, i), dkLen);
  }

  lemma NoBlocks(passwd: seq<byte>, salt: seq<byte>, count: nat, dkLen: nat)
    requires count >= 1
    ensures AtMost(Spec.DerivedBlocks(passwd, salt, count, 0), dkLen) == []
  {
  }

  lemma CutOff(dk: seq<byte>, dkLen: nat)
    requires |dk| >= dkLen
    ensures AtMost(dk, dkLen) == dk[..dkLen]
  {
  }
}
