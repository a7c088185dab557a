/** Flat memory as the C sources use it: copying, clearing and xor-ing runs of
    cells, stated as functions on sequences and as loops over arrays. */
module Memory {

  import opened Bits

  /** `s` with the run that starts at `at` replaced by `piece`. */
  function Splice<T>(s: seq<T>, at: nat, piece: seq<T>): (r: seq<T>)
    requires at + |piece| <= |s|
    ensures |r| == |s|
    ensures r[at..at + |piece|] == piece
  {
    s[..at] + piece + s[at + |piece|..]
  }

  function Zeros(n: nat): (r: seq<byte>)
    ensures |r| == n
  {
    seq(n, _ => 0)
  }

  function XorBytes(a: seq<byte>, b: seq<byte>): (r: seq<byte>)
    requires |a| == |b|
    ensures |r| == |a|
  {
    seq(|a|, i requires 0 <= i < |a| => Xor8(a[i], b[i]))
  }

  /** memcpy. The regions must not overlap, as C demands. */
  method Copy<T>(dst: array<T>, at: nat, src: array<T>, from: nat, len: nat)
    requires at + len <= dst.Length && from + len <= src.Length
    requires dst != src || at + len <= from || from + len <= at
    modifies dst
    ensures dst[..] == Splice(old(dst[..]), at, old(src[from..from + len]))
  {
    CopySeq(dst, at, src[from..from + len]);
  }

  /** memcpy from read-only input. */
  method CopySeq<T>(dst: array<T>, at: nat, src: seq<T>)
    requires at + |src| <= dst.Length
    modifies dst
    ensures dst[..] == Splice(old(dst[..]), at, src)
  {
    var i := 0;
    while i < |src|
      invariant 0 <= i <= |src|
      invariant dst[..] == Splice(old(dst[..]), at, src[..i])
    {
      dst[at + i] := src[i];
      i := i + 1;
    }
    assert src[..i] == src;
  }

  /** memset to zero. */
  method Erase(dst: array<byte>, at: nat, len: nat)
    requires at + len <= dst.Length
    modifies dst
    ensures dst[..] == Splice(old(dst[..]), at, Zeros(len))
  {
    CopySeq(dst, at, Zeros(len));
  }

  /** Xors `src` into the run of `dst` that starts at `at`. */
  method XorInto(dst: array<byte>, at: nat, src: seq<byte>)
    requires at + |src| <= dst.Length
    modifies dst
    ensures dst[..] == Splice(old(dst[..]), at, XorBytes(old(dst[at..at + |src|]), src))
  {
    hide Xor8, Splice, XorBytes;
    var i := 0;
    while i < |src|
      invariant 0 <= i <= |src|
      invariant forall j :: 0 <= j < dst.Length ==>
        dst[j] == if at <= j < at + i then Xor8(old(dst[j]), src[j - at]) else old(dst[j])
    {
      dst[at + i] := Xor8(dst[at + i], src[i]);
      i := i + 1;
    }
    XoredRun(old(dst[..]), at, src, dst[..]);
    assert old(dst[..])[at..at + |src|] == old(dst[at..at + |src|]);
  }

  /** The xored run, byte by byte. */
  lemma XoredRun(s: seq<byte>, at: nat, src: seq<byte>, r: seq<byte>)
    requires at + |src| <= |s| == |r|
    requires forall j :: 0 <= j < |s| ==> r[j] == if at <= j < at + |src| then Xor8(s[j], src[j - at]) else s[j]
    ensures r == Splice(s, at, XorBytes(s[at..at + |src|], src))
  {
    hide Xor8;
  }
}
