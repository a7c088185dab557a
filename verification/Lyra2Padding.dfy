/** The input block of LYRA2: password, salt and the integer parameters, padded
    with 10*1 to whole 64-byte blocks. */
module Lyra2Padding {
  import opened Bits
  import opened Memory

  /** A 64-bit integer in memory, least significant byte first. */
  function Le64(x: nat): (r: seq<byte>)
    ensures |r| == 8
  {
    [x % 0x100, x / 0x100 % 0x100, x / 0x1_0000 % 0x100, x / 0x100_0000 % 0x100,
     x / 0x1_0000_0000 % 0x100, x / 0x100_0000_0000 % 0x100,
     x / 0x1_0000_0000_0000 % 0x100, x / 0x100_0000_0000_0000 % 0x100]
  }

  function FromLe64(r: seq<byte>): nat
    requires |r| == 8
  {
    var a: int, b: int, c: int, d: int, e: int, f: int, g: int, h: int :=
      r[0], r[1], r[2], r[3], r[4], r[5], r[6], r[7];
    a + 0x100 * b + 0x1_0000 * c + 0x100_0000 * d + 0x1_0000_0000 * e
    + 0x100_0000_0000 * f + 0x1_0000_0000_0000 * g + 0x100_0000_0000_0000 * h
  }

  lemma Le64RoundTrip(x: nat)
    requires x < 0x1_0000_0000_0000_0000
    ensures FromLe64(Le64(x)) == x
  {
    var b, c, d := x / 0x100, x / 0x1_0000, x / 0x100_0000;
    var e, f, g, h := x / 0x1_0000_0000, x / 0x100_0000_0000, x / 0x1_0000_0000_0000, x / 0x100_0000_0000_0000;
    assert c == b / 0x100 && d == c / 0x100 && e == d / 0x100;
    assert f == e / 0x100 && g == f / 0x100 && h == g / 0x100;
  }

  /** The arguments of LYRA2 that go into the hash; the two lengths are those of the strings. */
  datatype Arguments = Arguments(kLen: nat, pwd: seq<byte>, salt: seq<byte>, timeCost: nat, nRows: nat, nCols: nat) {
    predicate Fits() {
      && kLen < 0x1_0000_0000_0000_0000 && |pwd| < 0x1_0000_0000_0000_0000
      && |salt| < 0x1_0000_0000_0000_0000 && timeCost < 0x1_0000_0000_0000_0000
      && nRows < 0x1_0000_0000_0000_0000 && nCols < 0x1_0000_0000_0000_0000
    }

    function Basil(): (r: seq<byte>)
      ensures |r| == 48
    {
      Le64(kLen) + Le64(|pwd|) + Le64(|salt|) + Le64(timeCost) + Le64(nRows) + Le64(nCols)
    }

    function Data(): (r: seq<byte>)
      ensures |r| == |pwd| + |salt| + 48
    {
      pwd + salt + Basil()
    }
  }

  function Blocks(len: nat): nat {
    len / 64 + 1
  }

  /** 10*1: a byte 0x80, zeros, and 0x01 xored into the last byte of the last block. */
  function Pad(data: seq<byte>): (r: seq<byte>)
    ensures |r| == 64 * Blocks(|data|) && |r| > |data| && |r| % 64 == 0
  {
    var open := data + [0x80] + Zeros(64 * Blocks(|data|) - |data| - 1);
    open[|open| - 1 := Xor8(open[|open| - 1], 0x01)]
  }

  /** The padded input, a whole number of blocks. */
  function PaddedInput(x: Arguments): (r: seq<byte>)
    ensures |r| % 64 == 0
  {
    Pad(x.Data())
  }

  lemma PadBytes(data: seq<byte>)
    ensures
      var p := Pad(data);
      && p[..|data|] == data
      && p[|data|] == (if |p| == |data| + 1 then 0x81 else 0x80)
      && forall i :: |data| < i < |p| ==> p[i] == if i == |p| - 1 then 0x01 else 0
  {
    assert Xor(0x80, 0x01) == 0x81 by {
      assert Xor(0x40, 0) == 0x40 by { XorZero(0x40); }
    }
    XorZero(0x01);
  }

  /** The padding can be taken off again: different data are padded to different blocks. */
  lemma PadInjective(a: seq<byte>, b: seq<byte>)
    requires Pad(a) == Pad(b)
    ensures a == b
  {
    PadBytes(a);
    PadBytes(b);
    hide Pad;
    if |a| == |b| {
      assert a == Pad(a)[..|a|] == b;
    }
  }

  lemma BasilParts(x: Arguments)
    ensures
      var b := x.Basil();
      && b[0..8] == Le64(x.kLen) && b[8..16] == Le64(|x.pwd|) && b[16..24] == Le64(|x.salt|)
      && b[24..32] == Le64(x.timeCost) && b[32..40] == Le64(x.nRows) && b[40..48] == Le64(x.nCols)
  {
    hide Le64;
  }

  /** Two argument lists with the same padded block are the same: the lengths that follow the strings
      say where they are cut. */
  lemma InputInjective(x: Arguments, y: Arguments)
    requires x.Fits() && y.Fits()
    requires PaddedInput(x) == PaddedInput(y)
    ensures x == y
  {
    hide Pad, Le64, FromLe64;
    PadInjective(x.Data(), y.Data());
    var d, n := x.Data(), |x.Data()| - 48;
    assert d[n..] == x.Basil() && d[n..] == y.Basil();
    BasilParts(x);
    BasilParts(y);
    Le64RoundTrip(x.kLen); Le64RoundTrip(y.kLen);
    Le64RoundTrip(|x.pwd|); Le64RoundTrip(|y.pwd|);
    Le64RoundTrip(|x.salt|); Le64RoundTrip(|y.salt|);
    Le64RoundTrip(x.timeCost); Le64RoundTrip(y.timeCost);
    Le64RoundTrip(x.nRows); Le64RoundTrip(y.nRows);
    Le64RoundTrip(x.nCols); Le64RoundTrip(y.nCols);
    SameSplit(x, y);
  }

  lemma SameSplit(x: Arguments, y: Arguments)
    requires x.Data() == y.Data() && |x.pwd| == |y.pwd| && |x.salt| == |y.salt|
    ensures x.pwd == y.pwd && x.salt == y.salt
  {
    var m, n := |x.pwd|, |x.salt|;
    assert x.pwd == x.Data()[..m] && y.pwd == y.Data()[..m];
    assert x.salt == x.Data()[m..m + n] && y.salt == y.Data()[m..m + n];
  }

  /** `data` is laid out and the rest of the first `size` bytes is still clear. */
  ghost predicate Laid(matrix: seq<byte>, data: seq<byte>, size: nat) {
    && |data| <= size <= |matrix|
    && matrix[..|data|] == data
    && matrix[|data|..size] == Zeros(size - |data|)
  }

  /** Appends a piece at the write pointer. */
  method Put(matrix: array<byte>, at: nat, piece: seq<byte>, ghost data: seq<byte>, ghost size: nat)
    returns (next: nat)
    requires size <= matrix.Length && Laid(matrix[..], data, size) && at == |data| && at + |piece| <= size
    modifies matrix
    ensures next == at + |piece| && Laid(matrix[..], data + piece, size)
    ensures matrix[size..] == old(matrix[size..])
  {
    hide Laid;
    LaidGrows(matrix[..], data, piece, size);
    CopySeq(matrix, at, piece);
    next := at + |piece|;
  }

  lemma LaidGrows(m: seq<byte>, data: seq<byte>, piece: seq<byte>, size: nat)
    requires Laid(m, data, size) && |data| + |piece| <= size
    ensures Laid(Splice(m, |data|, piece), data + piece, size)
  {
    var n, r := |data| + |piece|, Splice(m, |data|, piece);
    forall i | n <= i < size
      ensures r[i] == 0
    {
      assert r[i] == m[i] == m[|data|..size][i - |data|];
    }
    assert r[..n] == data + piece;
  }

  /** The copies of the two strings, then those of the six integers. */
  method PutAll(matrix: array<byte>, x: Arguments, ghost size: nat) returns (at: nat)
    requires |x.Data()| <= size <= matrix.Length && Laid(matrix[..], [], size)
    modifies matrix
    ensures at == |x.Data()| && Laid(matrix[..], x.Data(), size)
    ensures matrix[size..] == old(matrix[size..])
  {
    hide Arguments.Basil, Laid;
    at := Put(matrix, 0, x.pwd, [], size);
    assert [] + x.pwd == x.pwd;
    at := Put(matrix, at, x.salt, x.pwd, size);
    at := PutBasil(matrix, at, x, x.pwd + x.salt, size);
  }

  method PutBasil(matrix: array<byte>, start: nat, x: Arguments, ghost d: seq<byte>, ghost size: nat)
    returns (at: nat)
    requires size <= matrix.Length && Laid(matrix[..], d, size) && start == |d| && start + 48 <= size
    modifies matrix
    ensures at == start + 48 && Laid(matrix[..], d + x.Basil(), size)
    ensures matrix[size..] == old(matrix[size..])
  {
    hide Le64, Laid;
    ghost var b := Le64(x.kLen);
    at := Put(matrix, start, Le64(x.kLen), d, size);
    at := Put(matrix, at, Le64(|x.pwd|), d + b, size);
    assert d + b + Le64(|x.pwd|) == d + (b + Le64(|x.pwd|));
    b := b + Le64(|x.pwd|);
    at := Put(matrix, at, Le64(|x.salt|), d + b, size);
    assert d + b + Le64(|x.salt|) == d + (b + Le64(|x.salt|));
    b := b + Le64(|x.salt|);
    at := Put(matrix, at, Le64(x.timeCost), d + b, size);
    assert d + b + Le64(x.timeCost) == d + (b + Le64(x.timeCost));
    b := b + Le64(x.timeCost);
    at := Put(matrix, at, Le64(x.nRows), d + b, size);
    assert d + b + Le64(x.nRows) == d + (b + Le64(x.nRows));
    b := b + Le64(x.nRows);
    at := Put(matrix, at, Le64(x.nCols), d + b, size);
    assert d + b + Le64(x.nCols) == d + (b + Le64(x.nCols));
  }

  /** Lays the padded input out at the start of the matrix, which must be large enough to hold it. */
  method LayOutInput(matrix: array<byte>, x: Arguments) returns (nBlocksInput: nat)
    requires 64 * Blocks(|x.Data()|) <= matrix.Length
    modifies matrix
    ensures nBlocksInput == Blocks(|x.Data()|)
    ensures matrix[..64 * nBlocksInput] == PaddedInput(x)
    ensures matrix[64 * nBlocksInput..] == old(matrix[64 * nBlocksInput..])
  {
    hide Arguments.Data;
    nBlocksInput := (|x.salt| + |x.pwd| + 48) / 64 + 1;
    var size := 64 * nBlocksInput;
    Erase(matrix, 0, size);
    assert matrix[..][0..size] == Zeros(size);
    var at := PutAll(matrix, x, size);
    Close(matrix, at, size, x.Data());
  }

  /** Sets the first and the last byte of the padding. */
  method Close(matrix: array<byte>, at: nat, size: nat, ghost data: seq<byte>)
    requires at == |data| && size == 64 * Blocks(|data|) <= matrix.Length && Laid(matrix[..], data, size)
    modifies matrix
    ensures matrix[..size] == Pad(data) && matrix[size..] == old(matrix[size..])
  {
    hide Xor8, Laid;
    ClosedIsPadded(matrix[..], data);
    matrix[at] := 0x80;
    matrix[size - 1] := Xor8(matrix[size - 1], 0x01);
  }

  lemma ClosedIsPadded(m: seq<byte>, data: seq<byte>)
    requires Laid(m, data, 64 * Blocks(|data|))
    ensures
      var size := 64 * Blocks(|data|);
      var open := m[|data| := 0x80];
      |data| < size <= |m| && open[size - 1 := Xor8(open[size - 1], 0x01)][..size] == Pad(data)
  {
    hide Xor8;
    var size := 64 * Blocks(|data|);
    assert m[|data| := 0x80][..size] == data + [0x80] + Zeros(size - |data| - 1);
  }
}
