/** neoscrypt.c: the configurable block mixer, its SMix loops and the core engine
    over FastKDF. */
module NeoScrypt {
  import opened Bits
  import opened Memory
  import opened ScryptSpec
  import opened Scrypt
  import opened Smix
  import Blake2sSpec
  import FastKdfSpec
  import FastKdf
  import FastKdfOpt

  // ----- neoscrypt_blkmix -----

  /** Cells below n hold their Y, the others what they held at first. */
  ghost predicate MixedInPlace(h: Core, b: seq<uint32>, r: nat, x: seq<uint32>, n: nat)
    requires r >= 1 && |b| == |x| == 32 * r && n <= 2 * r
  {
    && (forall k :: 0 <= k < n ==> CellAt(x, k) == Mixed(h, b, r, k + 1))
    && (forall k :: n <= k < 2 * r ==> CellAt(x, k) == CellAt(b, k))
  }

  lemma MixedInPlaceStep(h: Core, b: seq<uint32>, r: nat, x: seq<uint32>, n: nat)
    requires r >= 1 && |b| == |x| == 32 * r && n < 2 * r
    requires MixedInPlace(h, b, r, x, n)
    ensures
      var prev := CellAt(x, if n == 0 then 2 * r - 1 else n - 1);
      var y := h(XorWords(CellAt(x, n), prev));
      MixedInPlace(h, b, r, Splice(x, 16 * n, y), n + 1)
  {
    hide Splice, CellAt, XorWords;
    var prev := CellAt(x, if n == 0 then 2 * r - 1 else n - 1);
    assert prev == Mixed(h, b, r, n);
    XorWordsCommute(CellAt(x, n), prev);
    ReplaceCell(x, n, h(XorWords(CellAt(x, n), prev)));
  }

  lemma XorWordsCommute(a: seq<uint32>, b: seq<uint32>)
    requires |a| == |b|
    ensures XorWords(a, b) == XorWords(b, a)
  {
    hide Xor;
    forall i | 0 <= i < |a|
      ensures XorWords(a, b)[i] == XorWords(b, a)[i]
    {
      XorCommutes(a[i], b[i]);
    }
  }

  /** blkxor of the cell before (the last one for cell 0), then the mixer, both in place. */
  method MixCell(h: Core, X: array<uint32>, r: nat, n: nat, ghost b: seq<uint32>)
    requires r >= 1 && |b| == X.Length == 32 * r && n < 2 * r
    requires MixedInPlace(h, b, r, X[..], n)
    modifies X
    ensures MixedInPlace(h, b, r, X[..], n + 1)
  {
    hide XorWords, MixedInPlace;
    ghost var x := X[..];
    MixedInPlaceStep(h, b, r, x, n);
    var p := if n == 0 then 2 * r - 1 else n - 1;
    ghost var mine, prev := CellAt(x, n), CellAt(x, p);
    assert X[16 * n..16 * n + 16] == mine && X[16 * p..16 * p + 16] == prev;
    XorWordsInto(X, 16 * n, X[16 * p..16 * p + 16]);
    assert X[16 * n..16 * n + 16] == XorWords(mine, prev);
    ghost var once := X[..];
    ApplyCore(h, X, 16 * n);
    SpliceOver(x, 16 * n, XorWords(mine, prev), h(XorWords(mine, prev)));
  }

  lemma SpliceOver(s: seq<uint32>, at: nat, u: seq<uint32>, v: seq<uint32>)
    requires at + |u| <= |s| && |u| == |v|
    ensures Splice(Splice(s, at, u), at, v) == Splice(s, at, v)
  {
  }

  /** The reference path: mixes through, keeping a copy of each Y, then gathers the even and the odd
      ones. */
  method BlkmixReference(h: Core, X: array<uint32>, Y: array<uint32>, r: nat)
    requires r >= 1 && X.Length == Y.Length == 32 * r && X != Y
    modifies X, Y
    ensures X[..] == BlockMix(h, old(X[..]), r)
  {
    hide MixedInPlace, BlockMix, Mixed, Splice, CellAt;
    ghost var b := X[..];
    assert MixedInPlace(h, b, r, b, 0) by { NothingMixed(h, b, r); }
    var i := 0;
    while i < 2 * r
      invariant 0 <= i <= 2 * r
      invariant MixedInPlace(h, b, r, X[..], i)
      invariant forall k :: 0 <= k < i ==> CellAt(Y[..], k) == Mixed(h, b, r, k + 1)
    {
      MixCell(h, X, r, i, b);
      CellMixed(h, b, r, X[..], i);
      ReplaceCell(Y[..], i, CellAt(X[..], i));
      CopyCell(Y, i, X, i);
      i := i + 1;
    }
    Gather(h, X, Y, r, b);
  }

  lemma NothingMixed(h: Core, b: seq<uint32>, r: nat)
    requires r >= 1 && |b| == 32 * r
    ensures MixedInPlace(h, b, r, b, 0)
  {
  }

  lemma CellMixed(h: Core, b: seq<uint32>, r: nat, x: seq<uint32>, n: nat)
    requires r >= 1 && |b| == |x| == 32 * r && n < 2 * r
    requires MixedInPlace(h, b, r, x, n + 1)
    ensures CellAt(x, n) == Mixed(h, b, r, n + 1)
  {
  }

  method CopyCell(dst: array<uint32>, i: nat, src: array<uint32>, j: nat)
    requires dst != src && 16 * i + 16 <= dst.Length && 16 * j + 16 <= src.Length
    modifies dst
    ensures dst[..] == Splice(old(dst[..]), 16 * i, old(CellAt(src[..], j)))
  {
    assert src[16 * j..16 * j + 16] == CellAt(src[..], j);
    Copy(dst, 16 * i, src, 16 * j, 16);
  }

  /** The two copying loops at the end of the reference path. */
  method Gather(h: Core, X: array<uint32>, Y: array<uint32>, r: nat, ghost b: seq<uint32>)
    requires r >= 1 && |b| == X.Length == Y.Length == 32 * r && X != Y
    requires forall k :: 0 <= k < 2 * r ==> CellAt(Y[..], k) == Mixed(h, b, r, k + 1)
    modifies X
    ensures X[..] == BlockMix(h, b, r)
  {
    hide BlockMix, Mixed, Splice, CellAt;
    var i := 0;
    while i < r
      invariant 0 <= i <= r
      invariant forall k :: 0 <= k < i ==> CellAt(X[..], k) == Mixed(h, b, r, 2 * k + 1)
    {
      ReplaceCell(X[..], i, CellAt(Y[..], 2 * i));
      CopyCell(X, i, Y, 2 * i);
      i := i + 1;
    }
    i := 0;
    while i < r
      invariant 0 <= i <= r
      invariant forall k :: 0 <= k < r ==> CellAt(X[..], k) == Mixed(h, b, r, 2 * k + 1)
      invariant forall k :: r <= k < r + i ==> CellAt(X[..], k) == Mixed(h, b, r, 2 * (k - r) + 2)
    {
      ReplaceCell(X[..], r + i, CellAt(Y[..], 2 * i + 1));
      CopyCell(X, i + r, Y, 2 * i + 1);
      i := i + 1;
    }
    BlockMixByCells(h, b, r, X[..]);
  }

  /** neoscrypt_blkmix: written out for r = 1 and r = 2, the reference path otherwise. */
  method Blkmix(salsa: Core, chacha: Core, X: array<uint32>, Y: array<uint32>, r: nat, mixer: bool)
    requires r >= 1 && X.Length == Y.Length == 32 * r && X != Y
    modifies X, Y
    ensures X[..] == BlockMix(if mixer then chacha else salsa, old(X[..]), r)
  {
    hide MixedInPlace, BlockMix, Mixed, Splice, CellAt;
    ghost var b := X[..];
    var h := if mixer then chacha else salsa;
    NothingMixed(h, b, r);
    if r == 1 {
      MixCell(h, X, 1, 0, b);
      MixCell(h, X, 1, 1, b);
      AllMixedOne(h, b, X[..]);
    } else if r == 2 {
      MixCell(h, X, 2, 0, b);
      MixCell(h, X, 2, 1, b);
      MixCell(h, X, 2, 2, b);
      MixCell(h, X, 2, 3, b);
      AllMixedTwo(h, b, X[..]);
      SwapCells(X, 1, 2);
    } else {
      BlkmixReference(h, X, Y, r);
    }
  }

  /** For r = 1 the Y blocks are already in their places. */
  lemma AllMixedOne(h: Core, b: seq<uint32>, x: seq<uint32>)
    requires |b| == |x| == 32 && MixedInPlace(h, b, 1, x, 2)
    ensures x == BlockMix(h, b, 1)
  {
    hide Mixed, BlockMix;
    BlockMixByCells(h, b, 1, x);
  }

  /** For r = 2 the two middle ones have to change places. */
  lemma AllMixedTwo(h: Core, b: seq<uint32>, x: seq<uint32>)
    requires |b| == |x| == 64 && MixedInPlace(h, b, 2, x, 4)
    ensures Splice(Splice(x, 16, CellAt(x, 2)), 32, CellAt(x, 1)) == BlockMix(h, b, 2)
  {
    hide Mixed, BlockMix, Splice, CellAt;
    var once := Splice(x, 16, CellAt(x, 2));
    ReplaceCell(x, 1, CellAt(x, 2));
    ReplaceCell(once, 2, CellAt(x, 1));
    BlockMixByCells(h, b, 2, Splice(once, 32, CellAt(x, 1)));
  }

  /** What cell p holds when the first k words of two blocks have changed places. */
  function Swapped(x: seq<uint32>, i: nat, j: nat, k: nat, p: nat): uint32
    requires i < j && 16 * j + 16 <= |x| && k <= 16 && p < |x|
  {
    if 16 * i <= p < 16 * i + k then x[p + 16 * (j - i)]
    else if 16 * j <= p < 16 * j + k then x[p - 16 * (j - i)]
    else x[p]
  }

  /** blkswp of two whole blocks. */
  method SwapCells(X: array<uint32>, i: nat, j: nat)
    requires i < j && 16 * j + 16 <= X.Length
    modifies X
    ensures X[..] == Splice(Splice(old(X[..]), 16 * i, old(CellAt(X[..], j))), 16 * j, old(CellAt(X[..], i)))
  {
    ghost var x := X[..];
    var k := 0;
    while k < 16
      invariant 0 <= k <= 16
      invariant forall p :: 0 <= p < X.Length ==> X[p] == Swapped(x, i, j, k, p)
    {
      X[16 * i + k], X[16 * j + k] := X[16 * j + k], X[16 * i + k];
      k := k + 1;
    }
    hide Splice, CellAt, Swapped;
    AllSwapped(x, i, j, X[..]);
  }

  lemma AllSwapped(x: seq<uint32>, i: nat, j: nat, y: seq<uint32>)
    requires i < j && 16 * j + 16 <= |x| && |y| == |x|
    requires forall p :: 0 <= p < |x| ==> y[p] == Swapped(x, i, j, 16, p)
    ensures y == Splice(Splice(x, 16 * i, CellAt(x, j)), 16 * j, CellAt(x, i))
  {
  }

  // ----- SMix -----

  /** The two loops over V, mixing in place. */
  method SmixInPlace(salsa: Core, chacha: Core, X: array<uint32>, Y: array<uint32>, V: array<uint32>,
                     r: nat, N: nat, mixer: bool, ghost m: nat)
    requires r >= 1 && X.Length == Y.Length == 32 * r && V.Length == N * (32 * r)
    requires X != Y && V != X && V != Y
    requires N == Pow2(m) && m <= 32
    modifies X, Y, V
    ensures X[..] == RoMix(if mixer then chacha else salsa, old(X[..]), r, N)
  {
    hide BlockMix, RowAt, Pow2, XorWords, Integerify;
    ghost var b := X[..];
    ghost var h := if mixer then chacha else salsa;
    var i := 0;
    while i < N
      invariant 0 <= i <= N
      invariant X[..] == Vector(h, b, r, i)
      invariant Stored(h, b, r, V[..], i)
    {
      StoreRow(h, V, X, r, N, i, b);
      Blkmix(salsa, chacha, X, Y, r, mixer);
      i := i + 1;
    }
    hide Stored, Vector;
    i := 0;
    while i < N
      invariant 0 <= i <= N
      invariant X[..] == Walk(h, b, r, N, i)
      invariant Stored(h, b, r, V[..], N)
    {
      OneWordIndex(X[..], r, m);
      var j := And(X[16 * (2 * r - 1)], N - 1);
      XorRow(h, V, X, r, N, j, b);
      Blkmix(salsa, chacha, X, Y, r, mixer);
      i := i + 1;
    }
  }

  // ----- the core engine -----

  /** The mixing between the two key derivations. */
  function Engine(salsa: Core, chacha: Core, x: seq<uint32>, r: nat, N: nat, dblmix: bool): (y: seq<uint32>)
    requires r >= 1 && |x| == 32 * r && N >= 1
    ensures |y| == |x|
  {
    if dblmix then XorWords(RoMix(salsa, x, r, N), RoMix(chacha, x, r, N)) else RoMix(salsa, x, r, N)
  }

  /** A key derivation from password and salt to a number of bytes. */
  type Kdf = (seq<byte>, seq<byte>, nat) -> seq<byte>

  /** neoscrypt over any key derivation. */
  function Composed(kdf: Kdf, salsa: Core, chacha: Core, password: seq<byte>, r: nat, N: nat, dblmix: bool): seq<byte>
    requires r >= 1 && N >= 1 && |kdf(password, password, 128 * r)| == 128 * r
  {
    var p := kdf(password, password, 128 * r);
    assert |p| == 4 * (32 * r) && |p| % 4 == 0;
    var x := ToWords(p);
    assert |x| == 32 * r;
    kdf(password, ToOctets(Engine(salsa, chacha, x, r, N, dblmix)), 32)
  }

  /** neoscrypt over FastKDF, as a composition of its parts. */
  function NeoScryptSpec(g: Blake2sSpec.Compression, salsa: Core, chacha: Core, password: seq<byte>,
                         r: nat, N: nat, dblmix: bool): (digest: seq<byte>)
    requires |password| == 80 && 1 <= r <= 2 && N >= 1
    ensures |digest| == 32
  {
    var prf := FastKdf.BlakePrf(g);
    var x := ToWords(FastKdfSpec.FastKdf(prf, password, password, 32, 128 * r));
    FastKdfSpec.FastKdf(prf, password, ToOctets(Engine(salsa, chacha, x, r, N, dblmix)), 32, 32)
  }

  /** NeoScrypt over FastKDF is NeoScrypt over any derivation, with 32 iterations of FastKDF for it. */
  lemma FastKdfIsAKdf(g: Blake2sSpec.Compression, salsa: Core, chacha: Core, password: seq<byte>,
                      r: nat, N: nat, dblmix: bool)
    requires |password| == 80 && 1 <= r <= 2 && N >= 1
    ensures
      var kdf: Kdf := (p: seq<byte>, s: seq<byte>, n: nat) =>
        if p == [] || s == [] then [] else FastKdfSpec.FastKdf(FastKdf.BlakePrf(g), p, s, 32, n);
      && |kdf(password, password, 128 * r)| == 128 * r
      && NeoScryptSpec(g, salsa, chacha, password, r, N, dblmix) == Composed(kdf, salsa, chacha, password, r, N, dblmix)
  {
    hide FastKdfSpec.FastKdf, FastKdf.BlakePrf, Engine, ToWords, ToOctets;
  }

  /** blkxor over a whole vector. */
  method XorAll(X: array<uint32>, z: seq<uint32>)
    requires |z| == X.Length
    modifies X
    ensures X[..] == XorWords(old(X[..]), z)
  {
    assert X[0..X.Length] == X[..];
    XorWordsInto(X, 0, z);
  }

  /** The mixing in place: ChaCha on a copy, Salsa, then both together; or Salsa only. */
  method Mix(salsa: Core, chacha: Core, X: array<uint32>, r: nat, N: nat, dblmix: bool, ghost m: nat)
    requires r >= 1 && X.Length == 32 * r && N == Pow2(m) && m <= 32
    modifies X
    ensures X[..] == Engine(salsa, chacha, old(X[..]), r, N, dblmix)
  {
    hide RoMix, Pow2, XorWords;
    var Z := new uint32[32 * r];
    var Y := new uint32[32 * r];
    var V := new uint32[N * (32 * r)];
    ghost var x := X[..];
    if dblmix {
      Copy(Z, 0, X, 0, 32 * r);
      assert Z[..] == x;
      SmixInPlace(salsa, chacha, Z, Y, V, r, N, true, m);
    }
    assert X[..] == x;
    SmixInPlace(salsa, chacha, X, Y, V, r, N, false, m);
    if dblmix {
      XorAll(X, Z[..]);
    }
  }

  /** neoscrypt over any key derivation, for every r: what it does between two calls of the derivation. */
  method NeoScryptOver(kdf: Kdf, salsa: Core, chacha: Core, password: seq<byte>,
                       r: nat, N: nat, dblmix: bool, ghost m: nat)
    returns (output: seq<byte>)
    requires r >= 1 && N == Pow2(m) && m <= 32 && |kdf(password, password, 128 * r)| == 128 * r
    ensures output == Composed(kdf, salsa, chacha, password, r, N, dblmix)
  {
    hide Engine, ToOctets, ToWords, Pow2;
    var XB := new byte[128 * r];
    CopySeq(XB, 0, kdf(password, password, 128 * r));
    assert XB[..] == kdf(password, password, 128 * r);
    var X := new uint32[32 * r];
    DecodeWords(XB, X);
    Mix(salsa, chacha, X, r, N, dblmix, m);
    EncodeWords(X, XB);
    output := kdf(password, XB[..], 32);
  }

  /** neoscrypt with either build of FastKDF. The optimised build is for r = 2 only. */
  method NeoScrypt(g: Blake2sSpec.Compression, salsa: Core, chacha: Core, password: seq<byte>, output: array<byte>,
                   r: nat, N: nat, dblmix: bool, opt: bool, ghost m: nat)
    requires |password| == 80 && output.Length == 32
    requires 1 <= r <= 2 && (opt ==> r == 2) && N == Pow2(m) && m <= 32
    modifies output
    ensures output[..] == NeoScryptSpec(g, salsa, chacha, password, r, N, dblmix)
  {
    hide FastKdfSpec.FastKdf, Engine, FastKdf.BlakePrf, ToOctets, ToWords, Pow2;
    var XB := new byte[128 * r];
    if opt {
      FastKdfOpt.FastKdfOptimised(g, password, password, XB, 0);
    } else {
      assert password[..80] == password;
      FastKdf.FastKdf(g, password, 80, password, 80, 32, XB, 128 * r);
    }
    assert XB[..] == FastKdfSpec.FastKdf(FastKdf.BlakePrf(g), password, password, 32, 128 * r);
    var X := new uint32[32 * r];
    DecodeWords(XB, X);
    Mix(salsa, chacha, X, r, N, dblmix, m);
    EncodeWords(X, XB);
    var salt := XB[..];
    if opt {
      FastKdfOpt.FastKdfOptimised(g, password, salt, output, 1);
    } else {
      assert password[..80] == password && salt[..128 * r] == salt;
      FastKdf.FastKdf(g, password, 80, salt, 128 * r, 32, output, 32);
    }
  }
}
