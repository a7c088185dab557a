/** smix of scryptn.c and the SMix loops of neoscrypt.c: both are scryptROMix. */
module Smix {
  import opened Bits
  import opened Memory
  import opened ScryptSpec
  import opened Scrypt

  // ----- the table V -----

  /** Row k of a table with rows of w words; empty when there is no such row. */
  function RowAt(v: seq<uint32>, w: nat, k: nat): seq<uint32> {
    if k * w + w <= |v| then v[k * w..k * w + w] else []
  }

  lemma RowsFit(k: nat, N: nat, w: nat)
    requires k < N
    ensures k * w + w <= N * w
  {
    Spread(k, N - k - 1, w);
  }

  lemma Spread(k: nat, d: nat, w: nat)
    ensures (k + d + 1) * w == k * w + w + d * w && d * w >= 0
  {
  }

  lemma ReplaceRow(v: seq<uint32>, w: nat, N: nat, i: nat, piece: seq<uint32>)
    requires i < N && |v| == N * w && |piece| == w
    requires i * w + w <= |v|
    ensures RowAt(Splice(v, i * w, piece), w, i) == piece
    ensures forall k :: 0 <= k < i ==> RowAt(Splice(v, i * w, piece), w, k) == RowAt(v, w, k)
  {
    forall k | 0 <= k < i
      ensures RowAt(Splice(v, i * w, piece), w, k) == RowAt(v, w, k)
    {
      RowsFit(k, i, w);
    }
  }

  /** The first n rows of V are V_0 to V_{n-1}. */
  ghost predicate Stored(h: Core, b: seq<uint32>, r: nat, v: seq<uint32>, n: nat)
    requires r >= 1 && |b| == 32 * r
  {
    forall k :: 0 <= k < n ==> RowAt(v, 32 * r, k) == Vector(h, b, r, k)
  }

  /** V_i <-- X. */
  method StoreRow(ghost h: Core, V: array<uint32>, X: array<uint32>, r: nat, N: nat, i: nat, ghost b: seq<uint32>)
    requires r >= 1 && |b| == X.Length == 32 * r && V.Length == N * (32 * r) && i < N && V != X
    requires X[..] == Vector(h, b, r, i)
    requires Stored(h, b, r, V[..], i)
    modifies V
    ensures Stored(h, b, r, V[..], i + 1)
  {
    hide Vector, Splice, RowAt;
    RowsFit(i, N, 32 * r);
    ghost var v := V[..];
    ReplaceRow(v, 32 * r, N, i, X[..]);
    Copy(V, i * (32 * r), X, 0, 32 * r);
    assert X[0..32 * r] == X[..];
  }

  /** X <-- X xor V_j. */
  method XorRow(ghost h: Core, V: array<uint32>, X: array<uint32>, r: nat, N: nat, j: nat, ghost b: seq<uint32>)
    requires r >= 1 && |b| == X.Length == 32 * r && V.Length == N * (32 * r) && j < N && V != X
    requires Stored(h, b, r, V[..], N)
    modifies X
    ensures X[..] == XorWords(old(X[..]), Vector(h, b, r, j))
  {
    hide Vector, XorWords;
    RowsFit(j, N, 32 * r);
    assert V[j * (32 * r)..j * (32 * r) + 32 * r] == RowAt(V[..], 32 * r, j);
    assert X[0..32 * r] == X[..];
    XorWordsInto(X, 0, V[j * (32 * r)..j * (32 * r) + 32 * r]);
  }

  // ----- the index -----

  function Word64(high: nat, low: nat): nat {
    high * 0x1_0000_0000 + low
  }

  /** The index of scryptn.c: two words, masked with N - 1. */
  lemma TwoWordIndex(b: seq<uint32>, r: nat, m: nat)
    requires r >= 1 && |b| == 32 * r && m <= 64
    ensures
      var x0, x1 := b[16 * (2 * r - 1)], b[16 * (2 * r - 1) + 1];
      And(Word64(x1, x0), Pow2(m) - 1) == Integerify(b, r) % Pow2(m)
  {
    var last := CellAt(b, 2 * r - 1);
    LowWords(last, 2, m);
    assert last[..2][1..] == [last[1]];
    assert LittleEndian([last[1]]) == last[1];
    assert LittleEndian(last[..2]) == Word64(last[1], last[0]);
    MaskIsMod(Word64(last[1], last[0]), m);
  }

  /** The index of neoscrypt.c: one word, masked with N - 1. */
  lemma OneWordIndex(b: seq<uint32>, r: nat, m: nat)
    requires r >= 1 && |b| == 32 * r && m <= 32
    ensures And(b[16 * (2 * r - 1)], Pow2(m) - 1) == Integerify(b, r) % Pow2(m)
  {
    var last := CellAt(b, 2 * r - 1);
    LowWords(last, 1, m);
    assert last[..1][1..] == [];
    MaskIsMod(last[0], m);
  }

  // ----- octets and words -----

  method DecodeWords(B: array<byte>, X: array<uint32>)
    requires B.Length == 4 * X.Length
    modifies X
    ensures X[..] == ToWords(B[..])
  {
    hide Le32Dec;
    var k := 0;
    while k < X.Length
      invariant 0 <= k <= X.Length
      invariant forall i :: 0 <= i < k ==> X[i] == ToWords(B[..])[i]
    {
      X[k] := Le32Dec(B[4 * k..4 * k + 4]);
      assert B[4 * k..4 * k + 4] == B[..][4 * k..4 * k + 4];
      k := k + 1;
    }
  }

  method EncodeWords(X: array<uint32>, B: array<byte>)
    requires B.Length == 4 * X.Length
    modifies B
    ensures B[..] == ToOctets(X[..])
  {
    hide Le32Enc;
    var k := 0;
    while k < X.Length
      invariant 0 <= k <= X.Length
      invariant B[..4 * k] == ToOctets(X[..k])
    {
      CopySeq(B, 4 * k, Le32Enc(X[k]));
      assert X[..k + 1][..k] == X[..k];
      assert B[..4 * (k + 1)] == B[..4 * k] + Le32Enc(X[k]);
      k := k + 1;
    }
    assert X[..k] == X[..] && B[..4 * k] == B[..];
  }

  // ----- smix -----

  /** integerify(X, r) & (N - 1). */
  method MaskedIndex(X: array<uint32>, r: nat, N: nat, ghost m: nat) returns (j: nat)
    requires r >= 1 && X.Length == 32 * r && N == Pow2(m) && 1 <= m <= 63
    ensures j == Integerify(X[..], r) % N && j < N
  {
    hide Integerify;
    TwoWordIndex(X[..], r, m);
    j := And(Word64(X[16 * (2 * r - 1) + 1], X[16 * (2 * r - 1)]), N - 1);
  }

  /** One turn of the second loop: reads X, leaves the mixed vector in Y. */
  method LookupAndMix(h: Core, X: array<uint32>, Y: array<uint32>, Z: array<uint32>, V: array<uint32>,
                      r: nat, N: nat, ghost m: nat, ghost b: seq<uint32>, ghost n: nat)
    requires r >= 1 && |b| == X.Length == Y.Length == 32 * r && Z.Length == 16 && V.Length == N * (32 * r)
    requires X != Y && X != Z && Y != Z && V != X && V != Y && V != Z
    requires N == Pow2(m) && 1 <= m <= 63
    requires Stored(h, b, r, V[..], N)
    requires X[..] == Walk(h, b, r, N, n)
    modifies X, Y, Z
    ensures Y[..] == Walk(h, b, r, N, n + 1)
  {
    hide Vector, XorWords, BlockMix, Integerify, Stored;
    var j := MaskedIndex(X, r, N, m);
    XorRow(h, V, X, r, N, j, b);
    BlockMixSalsa(h, X, Y, Z, r);
  }

  /** smix. N is a power of two greater than one. */
  method Smix(h: Core, B: array<byte>, r: nat, N: nat, V: array<uint32>,
              X: array<uint32>, Y: array<uint32>, Z: array<uint32>, ghost m: nat)
    requires r >= 1 && B.Length == 128 * r && V.Length == N * (32 * r)
    requires X.Length == Y.Length == 32 * r && Z.Length == 16
    requires X != Y && X != Z && Y != Z && V != X && V != Y && V != Z
    requires (B as object) != V && (B as object) != X && (B as object) != Y && (B as object) != Z
    requires N == Pow2(m) && 1 <= m <= 63
    modifies B, V, X, Y, Z
    ensures B[..] == RoMixOctets(h, old(B[..]), r, N)
  {
    hide Vector, Walk, BlockMix, Stored, ToWords, ToOctets;
    DecodeWords(B, X);
    ghost var b := X[..];
    FillTable(h, X, Y, Z, V, r, N, m, b);
    WalkTable(h, X, Y, Z, V, r, N, m, b);
    EncodeWords(X, B);
  }

  /** The first loop, two rows a turn: X holds the even vectors, Y the odd ones. */
  method FillTable(h: Core, X: array<uint32>, Y: array<uint32>, Z: array<uint32>, V: array<uint32>,
                   r: nat, N: nat, ghost m: nat, ghost b: seq<uint32>)
    requires r >= 1 && |b| == X.Length == Y.Length == 32 * r && Z.Length == 16 && V.Length == N * (32 * r)
    requires X != Y && X != Z && Y != Z && V != X && V != Y && V != Z
    requires N == Pow2(m) && 1 <= m
    requires X[..] == b
    modifies X, Y, Z, V
    ensures X[..] == Vector(h, b, r, N)
    ensures Stored(h, b, r, V[..], N)
  {
    hide BlockMix, RowAt;
    ghost var half := Pow2(m - 1);
    assert N == 2 * half;
    hide Pow2;
    var i := 0;
    ghost var q := 0;
    while i < N
      invariant i == 2 * q && q <= half
      invariant X[..] == Vector(h, b, r, i)
      invariant Stored(h, b, r, V[..], i)
    {
      StoreRow(h, V, X, r, N, i, b);
      BlockMixSalsa(h, X, Y, Z, r);
      StoreRow(h, V, Y, r, N, i + 1, b);
      BlockMixSalsa(h, Y, X, Z, r);
      i := i + 2;
      q := q + 1;
    }
  }

  lemma WalkStarts(h: Core, b: seq<uint32>, r: nat, N: nat)
    requires r >= 1 && |b| == 32 * r && N >= 1
    ensures Walk(h, b, r, N, 0) == Vector(h, b, r, N)
  {
  }

  /** The second loop, again two turns at a time. */
  method WalkTable(h: Core, X: array<uint32>, Y: array<uint32>, Z: array<uint32>, V: array<uint32>,
                   r: nat, N: nat, ghost m: nat, ghost b: seq<uint32>)
    requires r >= 1 && |b| == X.Length == Y.Length == 32 * r && Z.Length == 16 && V.Length == N * (32 * r)
    requires X != Y && X != Z && Y != Z && V != X && V != Y && V != Z
    requires N == Pow2(m) && 1 <= m <= 63
    requires X[..] == Vector(h, b, r, N)
    requires Stored(h, b, r, V[..], N)
    modifies X, Y, Z
    ensures X[..] == RoMix(h, b, r, N)
  {
    hide Walk, Stored;
    assert X[..] == Walk(h, b, r, N, 0) by { WalkStarts(h, b, r, N); }
    ghost var half := Pow2(m - 1);
    assert N == 2 * half;
    hide Pow2;
    var i := 0;
    ghost var q := 0;
    while i < N
      invariant i == 2 * q && q <= half
      invariant X[..] == Walk(h, b, r, N, i)
    {
      LookupAndMix(h, X, Y, Z, V, r, N, m, b, i);
      LookupAndMix(h, Y, X, Z, V, r, N, m, b, i + 1);
      i := i + 2;
      q := q + 1;
    }
  }
}
