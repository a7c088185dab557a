/** scryptBlockMix and scryptROMix (RFC 7914 sections 4 and 5) over 32-bit words,
    for any 64-byte core H. */
module ScryptSpec {
  import opened Bits
  import opened Memory

  /** A 64-byte block as sixteen little-endian words. */
  type Cell = s: seq<uint32> | |s| == 16 witness seq(16, _ => 0)

  type Core = Cell -> Cell

  function XorWords(a: seq<uint32>, b: seq<uint32>): (r: seq<uint32>)
    requires |a| == |b|
    ensures |r| == |a|
  {
    seq(|a|, i requires 0 <= i < |a| => Xor32(a[i], b[i]))
  }

  /** Block number i. */
  function CellAt(b: seq<uint32>, i: nat): Cell
    requires 16 * i + 16 <= |b|
  {
    b[16 * i..16 * i + 16]
  }

  /** X of scryptBlockMix after n turns of step 2; Y_i is Mixed(i + 1). */
  function Mixed(h: Core, b: seq<uint32>, r: nat, n: nat): Cell
    requires r >= 1 && |b| == 32 * r && n <= 2 * r
  {
    if n == 0 then CellAt(b, 2 * r - 1) else h(XorWords(Mixed(h, b, r, n - 1), CellAt(b, n - 1)))
  }

  /** Which Y_i step 3 puts in place k: Y_0, Y_2, ..., Y_{2r-2}, Y_1, Y_3, ..., Y_{2r-1}. */
  function Placed(r: nat, k: nat): (i: nat)
    requires k < 2 * r
    ensures i < 2 * r
  {
    if k < r then 2 * k else 2 * (k - r) + 1
  }

  function BlockMix(h: Core, b: seq<uint32>, r: nat): (c: seq<uint32>)
    requires r >= 1 && |b| == 32 * r
    ensures |c| == |b|
  {
    seq(32 * r, p requires 0 <= p < 32 * r => Mixed(h, b, r, Placed(r, p / 16) + 1)[p % 16])
  }

  /** V_i of scryptROMix: scryptBlockMix applied i times. */
  function Vector(h: Core, b: seq<uint32>, r: nat, i: nat): (v: seq<uint32>)
    requires r >= 1 && |b| == 32 * r
    ensures |v| == |b|
  {
    if i == 0 then b else BlockMix(h, Vector(h, b, r, i - 1), r)
  }

  /** Words as one little-endian integer. */
  function LittleEndian(words: seq<uint32>): nat {
    if words == [] then 0 else words[0] + 0x1_0000_0000 * LittleEndian(words[1..])
  }

  /** The last 64-byte block as a little-endian integer. */
  function Integerify(b: seq<uint32>, r: nat): nat
    requires r >= 1 && |b| == 32 * r
  {
    LittleEndian(CellAt(b, 2 * r - 1))
  }

  /** X of scryptROMix after n turns of step 3. */
  function Walk(h: Core, b: seq<uint32>, r: nat, N: nat, n: nat): (x: seq<uint32>)
    requires r >= 1 && |b| == 32 * r && N >= 1
    ensures |x| == |b|
  {
    if n == 0 then
      Vector(h, b, r, N)
    else
      var x := Walk(h, b, r, N, n - 1);
      BlockMix(h, XorWords(x, Vector(h, b, r, Integerify(x, r) % N)), r)
  }

  function RoMix(h: Core, b: seq<uint32>, r: nat, N: nat): (x: seq<uint32>)
    requires r >= 1 && |b| == 32 * r && N >= 1
    ensures |x| == |b|
  {
    Walk(h, b, r, N, N)
  }

  // ----- octets and words -----

  function Le32Dec(p: seq<byte>): uint32
    requires |p| == 4
  {
    var a: int, b: int, c: int, d: int := p[0], p[1], p[2], p[3];
    a + 0x100 * b + 0x1_0000 * c + 0x100_0000 * d
  }

  function Le32Enc(x: nat): (r: seq<byte>)
    ensures |r| == 4
  {
    [x % 0x100, x / 0x100 % 0x100, x / 0x1_0000 % 0x100, x / 0x100_0000 % 0x100]
  }

  function ToWords(p: seq<byte>): (w: seq<uint32>)
    requires |p| % 4 == 0
    ensures |w| == |p| / 4
  {
    seq(|p| / 4, k requires 0 <= k < |p| / 4 => Le32Dec(p[4 * k..4 * k + 4]))
  }

  function ToOctets(w: seq<uint32>): (p: seq<byte>)
    ensures |p| == 4 * |w|
  {
    if w == [] then [] else ToOctets(w[..|w| - 1]) + Le32Enc(w[|w| - 1])
  }

  /** scryptROMix on octets. */
  function RoMixOctets(h: Core, b: seq<byte>, r: nat, N: nat): (c: seq<byte>)
    requires r >= 1 && |b| == 128 * r && N >= 1
    ensures |c| == |b|
  {
    ToOctets(RoMix(h, ToWords(b), r, N))
  }

  lemma DecodeEncoded(x: uint32)
    ensures Le32Dec(Le32Enc(x)) == x
  {
    var b, c, d := x / 0x100, x / 0x1_0000, x / 0x100_0000;
    assert c == b / 0x100 && d == c / 0x100;
  }

  /** Encoding loses nothing. */
  lemma {:induction false} WordsRoundTrip(w: seq<uint32>)
    ensures ToWords(ToOctets(w)) == w
  {
    if w != [] {
      var n := |w| - 1;
      WordsRoundTrip(w[..n]);
      DecodeEncoded(w[n]);
      AppendWord(ToOctets(w[..n]), Le32Enc(w[n]));
    }
  }

  lemma EncodeDecoded(p: seq<byte>)
    requires |p| == 4
    ensures Le32Enc(Le32Dec(p)) == p
  {
    var a: int, b: int, c: int, d: int := p[0], p[1], p[2], p[3];
    var x := Le32Dec(p);
    assert x / 0x100 == b + 0x100 * c + 0x1_0000 * d;
    assert x / 0x1_0000 == c + 0x100 * d;
  }

  /** Nor does decoding. */
  lemma {:induction false} OctetsRoundTrip(p: seq<byte>)
    requires |p| % 4 == 0
    ensures ToOctets(ToWords(p)) == p
  {
    hide Le32Enc, Le32Dec;
    if p != [] {
      var n := |p| - 4;
      var front, last := p[..n], p[n..];
      assert p == front + last;
      OctetsRoundTrip(front);
      EncodeDecoded(last);
      AppendWord(front, last);
      var w := ToWords(p);
      assert w[..|w| - 1] == ToWords(front);
    }
  }

  lemma AppendWord(p: seq<byte>, last: seq<byte>)
    requires |p| % 4 == 0 && |last| == 4
    ensures ToWords(p + last) == ToWords(p) + [Le32Dec(last)]
  {
    hide Le32Dec;
    forall k | 0 <= k < |p| / 4
      ensures ToWords(p + last)[k] == ToWords(p)[k]
    {
      assert (p + last)[4 * k..4 * k + 4] == p[4 * k..4 * k + 4];
    }
    var n := |p| / 4;
    assert (p + last)[4 * n..4 * n + 4] == last;
  }

  // ----- laws -----

  /** BlockMix is determined block by block. */
  lemma BlockMixByCells(h: Core, b: seq<uint32>, r: nat, c: seq<uint32>)
    requires r >= 1 && |b| == |c| == 32 * r
    requires forall k :: 0 <= k < 2 * r ==> CellAt(c, k) == Mixed(h, b, r, Placed(r, k) + 1)
    ensures c == BlockMix(h, b, r)
  {
    hide Mixed, Placed, BlockMix, CellAt;
    forall p | 0 <= p < 32 * r
      ensures c[p] == BlockMix(h, b, r)[p]
    {
      BlockMixWord(h, b, r, p);
      WordOfCell(c, p);
    }
  }

  lemma BlockMixWord(h: Core, b: seq<uint32>, r: nat, p: nat)
    requires r >= 1 && |b| == 32 * r && p < 32 * r
    ensures p / 16 < 2 * r && BlockMix(h, b, r)[p] == Mixed(h, b, r, Placed(r, p / 16) + 1)[p % 16]
  {
    hide Mixed, Placed;
  }

  lemma WordOfCell(c: seq<uint32>, p: nat)
    requires p < |c| && |c| % 32 == 0
    ensures 16 * (p / 16) + 16 <= |c| && c[p] == CellAt(c, p / 16)[p % 16]
  {
  }

  /** A power of two up to 2^(32 * n) sees only the first n words of an integer. */
  lemma {:induction false} LowWords(words: seq<uint32>, n: nat, m: nat)
    requires n <= |words| && m <= 32 * n
    ensures LittleEndian(words) % Pow2(m) == LittleEndian(words[..n]) % Pow2(m)
  {
    hide Pow2, LittleEndian;
    LittleEndianAppend(words[..n], words[n..]);
    assert words[..n] + words[n..] == words;
    Pow2Add(32 * n - m, m);
    var low, high, p, u := LittleEndian(words[..n]), LittleEndian(words[n..]), Pow2(m), Pow2(32 * n - m);
    Regroup(u, p, high);
    AddMultiple(low, u * high, p);
  }

  lemma Regroup(u: nat, p: nat, h: nat)
    ensures u * p * h == u * h * p && u * (p * h) == u * p * h
  {
  }

  lemma {:induction false} LittleEndianAppend(a: seq<uint32>, b: seq<uint32>)
    ensures LittleEndian(a + b) == LittleEndian(a) + Pow2(32 * |a|) * LittleEndian(b)
  {
    if a == [] {
      assert a + b == b;
    } else {
      assert (a + b)[1..] == a[1..] + b;
      LittleEndianAppend(a[1..], b);
      var q, y := Pow2(32 * |a[1..]|), LittleEndian(b);
      assert Pow2(32 * |a|) == 0x1_0000_0000 * q by {
        Pow2Add(32, 32 * |a[1..]|);
        Pow2Values();
      }
      hide Pow2;
      Regroup(0x1_0000_0000, q, y);
    }
  }
}
