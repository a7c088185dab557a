/** neoscrypt_fastkdf: buffers that repeat their first bytes behind their end stand
    in for a ring, so that every read is one contiguous run. */
module FastKdf {
  import opened Bits
  import opened Memory
  import opened FastKdfSpec
  import Blake2sSpec
  import Blake2s

  /** BLAKE2s with a 32-byte key and digest as FastKDF's pseudo-random function. */
  function BlakePrf(g: Blake2sSpec.Compression): Prf {
    (input: Input, key: Key) => Blake2sSpec.Blake2s(g, key, input, 32)
  }

  /** The first `tail` bytes are repeated behind the 256. */
  ghost predicate Mirrored(b: seq<byte>, tail: nat) {
    && |b| == 256 + tail && tail <= 256
    && forall i :: 0 <= i < tail ==> b[256 + i] == b[i]
  }

  /** In a mirrored buffer a contiguous read is a read around the ring. */
  lemma MirroredRead(b: seq<byte>, tail: nat, at: nat, n: nat)
    requires Mirrored(b, tail) && at < 256 && n <= tail
    ensures b[at..at + n] == Read(b[..256], at, n)
  {
    forall i | 0 <= i < n
      ensures b[at + i] == Read(b[..256], at, n)[i]
    {
      if at + i >= 256 {
        assert (at + i) % 256 == at + i - 256;
      }
    }
  }

  /** The two ways back to a mirrored buffer after 32 bytes were xored in at `at`. */
  function Mend(x: seq<byte>, at: nat): (r: seq<byte>)
    requires |x| == 288 && at < 256
    ensures |r| == 288
  {
    if at < 32 then Splice(x, 256 + at, x[at..32])
    else if 256 - at < 32 then Splice(x, 0, x[256..at + 32])
    else x
  }

  /** The buffer after the xor, byte by byte. */
  lemma XoredByte(b: seq<byte>, at: nat, piece: seq<byte>, i: nat)
    requires |b| == 288 && at < 256 && |piece| == 32 && i < 288
    ensures Splice(b, at, XorBytes(b[at..at + 32], piece))[i]
      == if at <= i < at + 32 then Xor8(b[i], piece[i - at]) else b[i]
  {
    hide Xor8;
  }

  lemma RingByte(b: seq<byte>, at: nat, piece: seq<byte>, i: nat)
    requires |b| >= 256 && at < 256 && |piece| == 32 && i < 256
    ensures XorAt(b[..256], at, piece)[i]
      == if at <= i < at + 32 then Xor8(b[i], piece[i - at])
         else if i + 256 < at + 32 then Xor8(b[i], piece[i + 256 - at]) else b[i]
  {
    hide Xor8;
    DivModUnique(i + 256 - at, 256, if i >= at then 1 else 0, if i >= at then i - at else i + 256 - at);
  }

  /** Whichever branch mends the buffer, the result is the mirrored form of the xored ring. */
  lemma MendedIsRing(b: seq<byte>, at: nat, piece: seq<byte>)
    requires Mirrored(b, 32) && at < 256 && |piece| == 32
    ensures
      var x := Splice(b, at, XorBytes(b[at..at + 32], piece));
      Mirrored(Mend(x, at), 32) && Mend(x, at)[..256] == XorAt(b[..256], at, piece)
  {
    hide Xor8, XorAt, XorBytes;
    var x := Splice(b, at, XorBytes(b[at..at + 32], piece));
    var r := Mend(x, at);
    forall i | 0 <= i < 256
      ensures r[i] == XorAt(b[..256], at, piece)[i]
    {
      RingByte(b, at, piece, i);
      XoredByte(b, at, piece, i);
      if i < 32 {
        XoredByte(b, at, piece, 256 + i);
      }
    }
    forall i | 0 <= i < 32
      ensures r[256 + i] == r[i]
    {
      XoredByte(b, at, piece, i);
      XoredByte(b, at, piece, 256 + i);
    }
  }

  // ----- filling a buffer -----

  /** After any number of whole copies, one more piece of a copy continues the tiling. */
  lemma TileOn(q: seq<byte>, i: nat, m: nat)
    requires q != [] && m <= |q|
    ensures Tile(q, i * |q|) + q[..m] == Tile(q, i * |q| + m)
  {
    var n := i * |q|;
    forall j | n <= j < n + m
      ensures j % |q| == j - n
    {
      DivModUnique(j, |q|, i, j - n);
    }
  }

  /** Copies `q` behind what is already tiled. */
  method LayTile(buf: array<byte>, q: seq<byte>, i: nat, m: nat)
    requires q != [] && m <= |q| && i * |q| + m <= buf.Length
    requires buf[..i * |q|] == Tile(q, i * |q|)
    modifies buf
    ensures buf[..i * |q| + m] == Tile(q, i * |q| + m)
  {
    hide Tile;
    TileOn(q, i, m);
    CopySeq(buf, i * |q|, q[..m]);
    assert buf[..i * |q| + m] == old(buf[..i * |q|]) + q[..m];
  }

  /** Whole copies of `q`, then the first part of one more. */
  method LayTiles(buf: array<byte>, q: seq<byte>)
    requires 0 < |q| <= 256 <= buf.Length
    modifies buf
    ensures buf[..256] == Tile(q, 256)
  {
    hide Tile;
    var len := |q|;
    var a := Quotient(256, len);
    assert buf[..0] == Tile(q, 0);
    var i := 0;
    while i < a
      invariant 0 <= i <= a
      invariant buf[..i * len] == Tile(q, i * len)
    {
      Lap(i, a, len);
      LayTile(buf, q, i, len);
      i := i + 1;
    }
    RestFits(a, len);
    var b := 256 - a * len;
    if b != 0 {
      LayTile(buf, q, a, b);
    }
  }

  lemma RestFits(a: nat, len: nat)
    requires a * len <= 256 < (a + 1) * len
    ensures 0 <= 256 - a * len < len
  {
  }

  /** Fills a buffer with `p` over and over, cut at 256, and repeats the first `tail` bytes behind. */
  method FillBuffer(p: seq<byte>, length: nat, buf: array<byte>, tail: nat)
    requires 0 < tail <= length <= |p|
    requires buf.Length == 256 + tail && tail <= 256
    modifies buf
    ensures
      var len := if length > 256 then 256 else length;
      Mirrored(buf[..], tail) && buf[..256] == Tile(p[..len], 256)
  {
    var len := if length > 256 then 256 else length;
    hide Tile, Mirrored;
    LayTiles(buf, p[..len]);
    TailMirrors(p, len, tail);
    CopySeq(buf, 256, p[..tail]);
    assert buf[..] == Tile(p[..len], 256) + p[..tail];
  }

  lemma TailMirrors(p: seq<byte>, len: nat, tail: nat)
    requires 0 < len <= 256 && tail <= len <= |p|
    ensures Mirrored(Tile(p[..len], 256) + p[..tail], tail)
  {
    var q := p[..len];
    forall i | 0 <= i < tail
      ensures Tile(q, 256)[i] == p[i]
    {
      DivModUnique(i, len, 0, i);
    }
  }

  lemma Lap(i: nat, a: nat, len: nat)
    requires i < a
    ensures i * len + len == (i + 1) * len <= a * len
  {
    assert a * len == i * len + len + (a - i - 1) * len;
  }

  // ----- the main loop -----

  /** bufptr: the sum of the bytes, masked. */
  method NextPointer(output: seq<byte>) returns (bufptr: nat)
    ensures bufptr == Sum(output) % 256
  {
    bufptr := 0;
    var j := 0;
    while j < |output|
      invariant 0 <= j <= |output|
      invariant bufptr == Sum(output[..j])
    {
      assert output[..j + 1][..j] == output[..j];
      bufptr := bufptr + output[j];
      j := j + 1;
    }
    assert output[..j] == output;
    MaskIsMod(bufptr, 8);
    bufptr := And(bufptr, 255);
  }

  /** Xors the PRF output in and restores the mirror by one of two copies, or by none. */
  method ModifySalt(B: array<byte>, bufptr: nat, output: seq<byte>)
    requires Mirrored(B[..], 32) && bufptr < 256 && |output| == 32
    modifies B
    ensures Mirrored(B[..], 32)
    ensures B[..256] == XorAt(old(B[..256]), bufptr, output)
  {
    hide XorBytes, XorAt, Mirrored;
    ghost var b := B[..];
    MendedIsRing(b, bufptr, output);
    assert b[..256] == B[..256];
    SizeOfMirrored(b);
    XorInto(B, bufptr, output);
    ghost var x := B[..];
    if bufptr < 32 {
      Copy(B, 256 + bufptr, B, bufptr, 32 - bufptr);
    } else if 256 - bufptr < 32 {
      Copy(B, 0, B, 256, 32 - (256 - bufptr));
    }
    assert B[..] == Mend(x, bufptr);
    assert B[..][..256] == B[..256];
  }

  lemma SizeOfMirrored(b: seq<byte>)
    requires Mirrored(b, 32)
    ensures |b| == 288
  {
  }

  lemma SizeOfMirrored64(b: seq<byte>)
    requires Mirrored(b, 64)
    ensures |b| == 320
  {
  }

  /** neoscrypt_blake2s as the main loop calls it. */
  method Prf32(g: Blake2sSpec.Compression, input: Input, key: Key) returns (output: seq<byte>)
    ensures output == BlakePrf(g)(input, key)
  {
    hide Blake2sSpec.Absorb, Blake2sSpec.Start;
    output := Blake2s.Hash(g, input, key, 32);
    Blake2sSpec.LowAbsorb(g, Blake2sSpec.Start(32, 32), key + Zeros(32) + input, 0);
  }

  /** One turn of the primary iteration. */
  method Turn(g: Blake2sSpec.Compression, A: array<byte>, B: array<byte>, bufptr: nat) returns (next: nat)
    requires A != B && Mirrored(A[..], 64) && Mirrored(B[..], 32) && bufptr < 256
    modifies B
    ensures Mirrored(B[..], 32)
    ensures Ring(B[..256], next) == Step(BlakePrf(g), A[..256], Ring(old(B[..256]), bufptr))
  {
    hide Read, XorAt, Sum, BlakePrf;
    MirroredRead(A[..], 64, bufptr, 64);
    MirroredRead(B[..], 32, bufptr, 32);
    assert A[..][..256] == A[..256] && B[..][..256] == B[..256];
    hide Mirrored;
    SizeOfMirrored64(A[..]);
    SizeOfMirrored(B[..]);
    var output := Prf32(g, A[bufptr..bufptr + 64], B[bufptr..bufptr + 32]);
    next := NextPointer(output);
    ModifySalt(B, next, output);
  }

  // ----- the output -----

  /** The ring buffer after xoring into two runs, one up to the end and one from the start. */
  function XoredTwice(b: seq<byte>, at: nat, p: seq<byte>): (r: seq<byte>)
    requires |b| == 288 && at < 256 && 256 - at <= |p| <= 256
    ensures |r| == 288
  {
    var a, n := 256 - at, |p|;
    var b1 := Splice(b, at, XorBytes(b[at..256], p[..a]));
    Splice(b1, 0, XorBytes(b1[0..n - a], p[a..]))
  }

  lemma XoredTwiceAt(b: seq<byte>, at: nat, p: seq<byte>, i: nat)
    requires |b| == 288 && at < 256 && 256 - at <= |p| <= 256 && i < 288
    ensures
      var a, n := 256 - at, |p|;
      XoredTwice(b, at, p)[i]
        == if i < n - a then Xor8(b[i], p[a + i]) else if at <= i < 256 then Xor8(b[i], p[i - at]) else b[i]
  {
    hide Xor8;
    var a, n := 256 - at, |p|;
    var b1 := Splice(b, at, XorBytes(b[at..256], p[..a]));
    assert b1[i] == if at <= i < 256 then Xor8(b[i], p[i - at]) else b[i];
  }

  lemma ReadXored(b: seq<byte>, at: nat, p: seq<byte>, i: nat)
    requires |b| == 288 && at < 256 && |p| <= 256 && i < |p|
    ensures XorBytes(Read(b[..256], at, |p|), p)[i] == Xor8(b[if at + i < 256 then at + i else at + i - 256], p[i])
  {
    hide Xor8;
    DivModUnique(at + i, 256, if at + i < 256 then 0 else 1, if at + i < 256 then at + i else at + i - 256);
  }

  lemma RunsAreRead(b: seq<byte>, at: nat, p: seq<byte>)
    requires |b| == 288 && at < 256 && 256 - at <= |p| <= 256
    ensures
      var b2 := XoredTwice(b, at, p);
      b2[at..256] + b2[0..|p| + at - 256] == XorBytes(Read(b[..256], at, |p|), p)
  {
    hide Xor8, XorBytes, Read, XoredTwice;
    var b2 := XoredTwice(b, at, p);
    var runs, read := b2[at..256] + b2[0..|p| + at - 256], XorBytes(Read(b[..256], at, |p|), p);
    forall i | 0 <= i < |p|
      ensures runs[i] == read[i]
    {
      ReadXored(b, at, p, i);
      if at + i < 256 {
        XoredTwiceAt(b, at, p, at + i);
      } else {
        XoredTwiceAt(b, at, p, at + i - 256);
      }
    }
  }

  /** Cutting the run at the ring's end, xoring and copying the two parts is xoring the read. */
  lemma TwoRuns(b: seq<byte>, at: nat, p: seq<byte>, o: seq<byte>)
    requires |b| == 288 && at < 256 && 256 - at <= |p| <= 256 && |p| <= |o|
    ensures
      var a, n := 256 - at, |p|;
      var b2 := XoredTwice(b, at, p);
      Splice(Splice(o, 0, b2[at..256]), a, b2[0..n - a]) == Splice(o, 0, XorBytes(Read(b[..256], at, n), p))
  {
    var a, n := 256 - at, |p|;
    var b2 := XoredTwice(b, at, p);
    hide Xor8, Splice, XorBytes, Read, XoredTwice;
    assert b2[at..256] + b2[0..n - a] == XorBytes(Read(b[..256], at, n), p) by {
      RunsAreRead(b, at, p);
    }
    SpliceTwice(o, b2[at..256], b2[0..n - a]);
  }

  lemma SpliceTwice(o: seq<byte>, u: seq<byte>, v: seq<byte>)
    requires |u| + |v| <= |o|
    ensures Splice(Splice(o, 0, u), |u|, v) == Splice(o, 0, u + v)
  {
  }

  lemma OneRun(b: seq<byte>, at: nat, n: nat)
    requires |b| == 288 && at + n <= 256
    ensures Read(b[..256], at, n) == b[at..at + n]
  {
  }

  /** Xors the password buffer into the ring from bufptr on and copies the result out, in one run
      when it fits before the end and in two when it does not. */
  method WriteOutput(A: array<byte>, B: array<byte>, bufptr: nat, output: array<byte>, len: nat)
    requires A != B && output != A && output != B
    requires A.Length == 320 && B.Length == 288 && bufptr < 256 && len <= 256 && len <= output.Length
    modifies B, output
    ensures output[..] == Splice(old(output[..]), 0, XorBytes(Read(old(B[..256]), bufptr, len), old(A[..len])))
  {
    hide Splice, XorBytes, Read;
    ghost var b, o, p := B[..], output[..], A[..len];
    assert B[..256] == b[..256];
    var a := 256 - bufptr;
    if a >= len {
      OneRun(b, bufptr, len);
      assert B[bufptr..bufptr + len] == b[bufptr..bufptr + len] && A[0..len] == p;
      XorInto(B, bufptr, A[0..len]);
      Copy(output, 0, B, bufptr, len);
      assert B[bufptr..bufptr + len] == B[..][bufptr..bufptr + len];
    } else {
      TwoRuns(b, bufptr, p, o);
      assert A[0..a] == p[..a] && A[a..len] == p[a..];
      assert B[bufptr..256] == b[bufptr..256];
      XorInto(B, bufptr, A[0..a]);
      assert B[0..len - a] == B[..][0..len - a];
      XorInto(B, 0, A[a..len]);
      assert B[0..len - a] == B[..][0..len - a] && B[bufptr..256] == B[..][bufptr..256];
      Copy(output, 0, B, bufptr, a);
      Copy(output, a, B, 0, len - a);
    }
  }

  /** neoscrypt_fastkdf. The password and the salt are at least as long as the tails copied from them. */
  method FastKdf(g: Blake2sSpec.Compression, password: seq<byte>, passwordLen: nat, salt: seq<byte>, saltLen: nat,
                 N: nat, output: array<byte>, outputLen: nat)
    requires 64 <= passwordLen <= |password| && 32 <= saltLen <= |salt|
    requires outputLen <= output.Length
    modifies output
    ensures
      var p := password[..if passwordLen > 256 then 256 else passwordLen];
      var s := salt[..if saltLen > 256 then 256 else saltLen];
      output[..] == Splice(old(output[..]), 0, FastKdfSpec.FastKdf(BlakePrf(g), p, s, N, outputLen))
  {
    hide Step, Tile, Mirrored, Splice, XorBytes, Read;
    var A := new byte[320];
    var B := new byte[288];
    FillBuffer(password, passwordLen, A, 64);
    FillBuffer(salt, saltLen, B, 32);
    ghost var a: RingBytes, b: RingBytes := A[..256], B[..256];
    var bufptr := 0;
    var i := 0;
    while i < N
      invariant 0 <= i <= N && bufptr < 256
      invariant Mirrored(A[..], 64) && A[..256] == a && Mirrored(B[..], 32)
      invariant output[..] == old(output[..])
      invariant Ring(B[..256], bufptr) == Run(BlakePrf(g), a, b, i)
    {
      bufptr := Turn(g, A, B, bufptr);
      i := i + 1;
    }
    var len := if outputLen > 256 then 256 else outputLen;
    assert A[..len] == a[..len];
    WriteOutput(A, B, bufptr, output, len);
  }
}
