/** scryptn.c: block mixing with direct placement, and smix with two vectors that
    take turns. */
module Scrypt {
  import opened Bits
  import opened Memory
  import opened ScryptSpec

  /** blkxor. */
  method XorWordsInto(dst: array<uint32>, at: nat, src: seq<uint32>)
    requires at + |src| <= dst.Length
    modifies dst
    ensures dst[..] == Splice(old(dst[..]), at, XorWords(old(dst[at..at + |src|]), src))
  {
    hide Xor32;
    var i := 0;
    while i < |src|
      invariant 0 <= i <= |src|
      invariant forall j :: 0 <= j < dst.Length ==>
        dst[j] == if at <= j < at + i then Xor32(old(dst[j]), src[j - at]) else old(dst[j])
    {
      dst[at + i] := Xor32(dst[at + i], src[i]);
      i := i + 1;
    }
  }

  /** The core permutation on one block of an array, in place. */
  method ApplyCore(h: Core, X: array<uint32>, at: nat)
    requires at + 16 <= X.Length
    modifies X
    ensures X[..] == Splice(old(X[..]), at, h(old(X[at..at + 16])))
  {
    CopySeq(X, at, h(X[at..at + 16]));
  }

  /** Replacing one block leaves the others alone. */
  lemma ReplaceCell(s: seq<uint32>, i: nat, piece: Cell)
    requires 16 * i + 16 <= |s|
    ensures CellAt(Splice(s, 16 * i, piece), i) == piece
    ensures forall k :: 0 <= k && k != i && 16 * k + 16 <= |s| ==> CellAt(Splice(s, 16 * i, piece), k) == CellAt(s, k)
  {
    forall k | 0 <= k && k != i && 16 * k + 16 <= |s|
      ensures CellAt(Splice(s, 16 * i, piece), k) == CellAt(s, k)
    {
      assert k < i || k > i;
    }
  }

  /** One half turn of blockmix_salsa8: X is xored with block n, mixed, and put in its final place. */
  method MixAndPlace(h: Core, Bin: array<uint32>, Bout: array<uint32>, X: array<uint32>, r: nat, n: nat, place: nat)
    requires r >= 1 && Bin.Length == Bout.Length == 32 * r && X.Length == 16
    requires X != Bin && X != Bout && Bin != Bout
    requires n < 2 * r && place < 2 * r
    requires X[..] == Mixed(h, Bin[..], r, n)
    modifies Bout, X
    ensures X[..] == Mixed(h, Bin[..], r, n + 1)
    ensures Bout[..] == Splice(old(Bout[..]), 16 * place, Mixed(h, Bin[..], r, n + 1))
  {
    hide XorWords;
    ghost var x: Cell := X[..];
    assert X[0..16] == x;
    XorWordsInto(X, 0, Bin[16 * n..16 * n + 16]);
    assert X[..] == XorWords(x, CellAt(Bin[..], n));
    assert X[0..16] == X[..];
    ApplyCore(h, X, 0);
    Copy(Bout, 16 * place, X, 0, 16);
    assert X[0..16] == X[..];
  }

  /** The first q even-numbered and the first q odd-numbered Y blocks are in their places. */
  ghost predicate PlacedUpTo(h: Core, b: seq<uint32>, r: nat, out: seq<uint32>, q: nat)
    requires r >= 1 && |b| == |out| == 32 * r && q <= r
  {
    && (forall k :: 0 <= k < q ==> CellAt(out, k) == Mixed(h, b, r, 2 * k + 1))
    && (forall k :: r <= k < r + q ==> CellAt(out, k) == Mixed(h, b, r, 2 * (k - r) + 2))
  }

  lemma PlaceTwo(h: Core, b: seq<uint32>, r: nat, out: seq<uint32>, q: nat)
    requires r >= 1 && |b| == |out| == 32 * r && q < r
    requires PlacedUpTo(h, b, r, out, q)
    ensures
      var once := Splice(out, 16 * q, Mixed(h, b, r, 2 * q + 1));
      PlacedUpTo(h, b, r, Splice(once, 16 * (r + q), Mixed(h, b, r, 2 * q + 2)), q + 1)
  {
    hide Mixed, Splice, CellAt;
    ReplaceCell(out, q, Mixed(h, b, r, 2 * q + 1));
    ReplaceCell(Splice(out, 16 * q, Mixed(h, b, r, 2 * q + 1)), r + q, Mixed(h, b, r, 2 * q + 2));
  }

  lemma AllPlaced(h: Core, b: seq<uint32>, r: nat, out: seq<uint32>)
    requires r >= 1 && |b| == |out| == 32 * r
    requires PlacedUpTo(h, b, r, out, r)
    ensures out == BlockMix(h, b, r)
  {
    hide Mixed, CellAt, BlockMix;
    BlockMixByCells(h, b, r, out);
  }

  /** blockmix_salsa8. */
  method BlockMixSalsa(h: Core, Bin: array<uint32>, Bout: array<uint32>, X: array<uint32>, r: nat)
    requires r >= 1 && Bin.Length == Bout.Length == 32 * r && X.Length == 16
    requires X != Bin && X != Bout && Bin != Bout
    modifies Bout, X
    ensures Bout[..] == BlockMix(h, Bin[..], r)
  {
    hide Mixed, Splice, BlockMix, PlacedUpTo;
    ghost var b := Bin[..];
    Copy(X, 0, Bin, (2 * r - 1) * 16, 16);
    FirstMixed(h, b, r, X[..]);
    NonePlaced(h, b, r, Bout[..]);
    var i := 0;
    ghost var q := 0;
    while i < 2 * r
      invariant i == 2 * q && q <= r
      invariant Bin[..] == b && X[..] == Mixed(h, b, r, i)
      invariant PlacedUpTo(h, b, r, Bout[..], q)
    {
      PlaceTwo(h, b, r, Bout[..], q);
      MixAndPlace(h, Bin, Bout, X, r, i, i / 2);
      MixAndPlace(h, Bin, Bout, X, r, i + 1, r + i / 2);
      i := i + 2;
      q := q + 1;
    }
    AllPlaced(h, b, r, Bout[..]);
  }

  lemma NonePlaced(h: Core, b: seq<uint32>, r: nat, out: seq<uint32>)
    requires r >= 1 && |b| == |out| == 32 * r
    ensures PlacedUpTo(h, b, r, out, 0)
  {
  }

  lemma FirstMixed(h: Core, b: seq<uint32>, r: nat, x: seq<uint32>)
    requires r >= 1 && |b| == 32 * r && |x| == 16
    requires x == Splice(x, 0, b[(2 * r - 1) * 16..(2 * r - 1) * 16 + 16])
    ensures x == Mixed(h, b, r, 0)
  {
  }
}
