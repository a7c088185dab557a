/** MerkleTree.cs: the branch that is computed once from the other transactions'
    hashes, and the root it yields for any coinbase hash. */
module MerkleTree {
  import opened Bits

  type Hash = seq<byte>

  /** One application of the hash; the tree uses it twice in a row. */
  type Digest = seq<byte> -> seq<byte>

  /** An entry of the list L, whose first place is reserved for the coinbase. */
  datatype Entry = Reserved | Known(hash: Hash)

  function DoubleDigest(d: Digest, input: seq<byte>): Hash {
    d(d(input))
  }

  function MerkleJoin(d: Digest, hash1: Hash, hash2: Hash): Hash {
    DoubleDigest(d, hash1 + hash2)
  }

  // ----- the full tree -----

  /** A level of odd length repeats its last node. */
  function Evened(level: seq<Hash>): (r: seq<Hash>)
    requires level != []
    ensures |r| % 2 == 0 && |level| <= |r| <= |level| + 1
  {
    if |level| % 2 == 1 then level + [level[|level| - 1]] else level
  }

  /** Joins neighbours. */
  function PairUp(d: Digest, level: seq<Hash>): (r: seq<Hash>)
    requires |level| % 2 == 0
    ensures |r| == |level| / 2
  {
    if level == [] then [] else [MerkleJoin(d, level[0], level[1])] + PairUp(d, level[2..])
  }

  /** The Merkle root over all leaves. */
  function Root(d: Digest, level: seq<Hash>): Hash
    requires level != []
    decreases |level|
  {
    if |level| == 1 then level[0] else Root(d, PairUp(d, Evened(level)))
  }

  // ----- the branch -----

  /** The level above, without its first node, when the first leaf is not known. */
  function Above(d: Digest, rest: seq<Hash>): (r: seq<Hash>)
    requires rest != []
    ensures |r| == |rest| / 2
  {
    PairUp(d, (if |rest| % 2 == 0 then rest + [rest[|rest| - 1]] else rest)[1..])
  }

  /** The sibling of the first node on every level. */
  function Branch(d: Digest, rest: seq<Hash>): seq<Hash>
    decreases |rest|
  {
    if rest == [] then [] else [rest[0]] + Branch(d, Above(d, rest))
  }

  function WithFirst(d: Digest, first: Hash, steps: seq<Hash>): Hash
    decreases |steps|
  {
    if steps == [] then first else WithFirst(d, DoubleDigest(d, first + steps[0]), steps[1..])
  }

  /** One level up, the coinbase side is its join with the first step and the rest is Above. */
  lemma LevelUp(d: Digest, first: Hash, rest: seq<Hash>)
    requires rest != []
    ensures PairUp(d, Evened([first] + rest)) == [MerkleJoin(d, first, rest[0])] + Above(d, rest)
  {
    hide MerkleJoin;
    var e := Evened([first] + rest);
    assert e[0] == first && e[1] == rest[0];
    assert e[2..] == (if |rest| % 2 == 0 then rest + [rest[|rest| - 1]] else rest)[1..];
  }

  /** The precomputed branch gives the root of the full tree, whatever the coinbase hash is. */
  lemma {:induction false} BranchGivesRoot(d: Digest, first: Hash, rest: seq<Hash>)
    ensures WithFirst(d, first, Branch(d, rest)) == Root(d, [first] + rest)
    decreases |rest|
  {
    hide Above, PairUp;
    if rest != [] {
      var up := MerkleJoin(d, first, rest[0]);
      LevelUp(d, first, rest);
      BranchGivesRoot(d, up, Above(d, rest));
      var steps := Branch(d, rest);
      assert steps[1..] == Branch(d, Above(d, rest));
    }
  }

  /** Trees of up to three leaves, written out: a digest is applied twice, and the last of three leaves pairs with
      itself. */
  lemma SmallTrees(d: Digest, a: Hash, b: Hash, c: Hash)
    ensures Root(d, [a]) == a
    ensures Root(d, [a, b]) == d(d(a + b))
    ensures Root(d, [a, b, c]) == d(d(d(d(a + b)) + d(d(c + c))))
  {
    assert PairUp(d, [a, b]) == [d(d(a + b))] by { assert [a, b][2..] == []; }
    var four := [a, b, c, c];
    assert four[2..] == [c, c] && [c, c][2..] == [];
    assert PairUp(d, four) == [d(d(a + b)), d(d(c + c))];
    assert Evened([a, b, c]) == four && Evened([a, b]) == [a, b];
    var up := [d(d(a + b)), d(d(c + c))];
    assert up[2..] == [];
    assert Evened(up) == up && PairUp(d, up) == [d(d(up[0] + up[1]))];
    assert Root(d, up) == d(d(up[0] + up[1]));
  }

  /** The number of steps is the height of the tree: the least h with 2^h >= n + 1. */
  lemma {:induction false} BranchLength(d: Digest, rest: seq<Hash>)
    ensures
      var h := |Branch(d, rest)|;
      |rest| + 1 <= Pow2(h) && (rest != [] ==> Pow2(h - 1) < |rest| + 1)
    decreases |rest|
  {
    if rest != [] {
      BranchLength(d, Above(d, rest));
    }
  }

  /** Two coinbase hashes that lead to one root give a collision of the double digest away. */
  lemma {:induction false} SameRootCollides(d: Digest, first: Hash, first': Hash, steps: seq<Hash>)
    returns (x: seq<byte>, y: seq<byte>)
    requires first != first' && WithFirst(d, first, steps) == WithFirst(d, first', steps)
    ensures x != y && DoubleDigest(d, x) == DoubleDigest(d, y)
    decreases |steps|
  {
    hide DoubleDigest;
    x, y := first + steps[0], first' + steps[0];
    assert first == x[..|x| - |steps[0]|] && first' == y[..|y| - |steps[0]|];
    if DoubleDigest(d, x) != DoubleDigest(d, y) {
      x, y := SameRootCollides(d, DoubleDigest(d, x), DoubleDigest(d, y), steps[1..]);
    }
  }

  // ----- the code -----

  /** What the list L stands for: everything behind the reserved place. */
  ghost predicate Lists(L: seq<Entry>, rest: seq<Hash>) {
    && |L| == |rest| + 1
    && forall i :: 0 <= i < |rest| ==> L[i + 1] == Known(rest[i])
  }

  /** The loop over the pairs from index 2 on; `odd` is what stands there. */
  method JoinPairs(d: Digest, L: seq<Entry>, Ll: nat, ghost odd: seq<Hash>, ghost half: nat) returns (Ld: seq<Entry>)
    requires |odd| == 2 * half && |L| == 2 * half + 2 && (Ll == 2 * half + 1 || Ll == 2 * half + 2)
    requires forall j :: 0 <= j < 2 * half ==> L[j + 2] == Known(odd[j])
    ensures Lists([Reserved] + Ld, PairUp(d, odd))
  {
    hide MerkleJoin, PairUp, Lists;
    Ld := [];
    var i := 2;
    ghost var done := 0;
    NothingPaired(d, odd);
    while i < Ll
      invariant i == 2 * done + 2 && done <= half
      invariant Lists([Reserved] + Ld, PairUp(d, odd[..2 * done]))
    {
      PairUpNext(d, odd, done);
      assert L[2 * done + 2] == Known(odd[2 * done]) && L[2 * done + 1 + 2] == Known(odd[2 * done + 1]);
      var join := MerkleJoin(d, L[i].hash, L[i + 1].hash);
      ListsGrow(Ld, PairUp(d, odd[..2 * done]), join);
      Ld := Ld + [Known(join)];
      i := i + 2;
      done := done + 1;
    }
    assert odd[..2 * done] == odd;
  }

  lemma NothingPaired(d: Digest, odd: seq<Hash>)
    ensures Lists([Reserved] + [], PairUp(d, odd[..0]))
  {
  }

  /** One level, L having even length by now. */
  method JoinLevel(d: Digest, L: seq<Entry>, Ll: nat, ghost rest: seq<Hash>) returns (Ld: seq<Entry>)
    requires |rest| >= 1 && Ll == |rest| + 1
    requires Lists(L, if |rest| % 2 == 0 then rest + [rest[|rest| - 1]] else rest)
    ensures Lists([Reserved] + Ld, Above(d, rest))
  {
    hide MerkleJoin, PairUp;
    ghost var odd := (if |rest| % 2 == 0 then rest + [rest[|rest| - 1]] else rest)[1..];
    Ld := JoinPairs(d, L, Ll, odd, |odd| / 2);
  }

  lemma ListsGrow(Ld: seq<Entry>, rest: seq<Hash>, h: Hash)
    requires Lists([Reserved] + Ld, rest)
    ensures Lists([Reserved] + (Ld + [Known(h)]), rest + [h])
  {
    var before, after := [Reserved] + Ld, [Reserved] + (Ld + [Known(h)]);
    forall i | 0 <= i < |rest| + 1
      ensures after[i + 1] == Known((rest + [h])[i])
    {
      if i < |rest| {
        assert after[i + 1] == before[i + 1];
      }
    }
  }

  /** Joining one more pair appends one node. */
  lemma {:induction false} PairUpNext(d: Digest, level: seq<Hash>, k: nat)
    requires 2 * k + 2 <= |level|
    ensures PairUp(d, level[..2 * k + 2]) == PairUp(d, level[..2 * k]) + [MerkleJoin(d, level[2 * k], level[2 * k + 1])]
    decreases k
  {
    hide MerkleJoin;
    var long, short := level[..2 * k + 2], level[..2 * k];
    if k == 0 {
      assert long[2..] == [] && short == [];
    } else {
      PairUpNext(d, level[2..], k - 1);
      assert long[2..] == level[2..][..2 * k] && short[2..] == level[2..][..2 * (k - 1)];
    }
  }

  /** CalculateSteps. */
  method CalculateSteps(d: Digest, hashList: seq<Hash>) returns (steps: seq<Hash>)
    ensures steps == Branch(d, hashList)
  {
    hide MerkleJoin, Above;
    steps := [];
    var L: seq<Entry> := [Reserved] + seq(|hashList|, i requires 0 <= i < |hashList| => Known(hashList[i]));
    var Ll := |L|;
    ghost var rest := hashList;
    if Ll > 1 {
      while true
        invariant Lists(L, rest) && Ll == |L|
        invariant steps + Branch(d, rest) == Branch(d, hashList)
        decreases Ll
      {
        if Ll == 1 {
          break;
        }
        steps := steps + [L[1].hash];
        if Ll % 2 == 1 {
          L := L + [L[|L| - 1]];
        }
        var Ld := JoinLevel(d, L, Ll, rest);
        L := [Reserved] + Ld;
        Ll := |L|;
        rest := Above(d, rest);
      }
    }
  }

  /** WithFirst: folds the steps into the first hash. */
  method FoldFirst(d: Digest, steps: seq<Hash>, coinbase: Hash) returns (first: Hash)
    ensures first == WithFirst(d, coinbase, steps)
  {
    hide DoubleDigest;
    first := coinbase;
    var i := 0;
    while i < |steps|
      invariant 0 <= i <= |steps|
      invariant WithFirst(d, first, steps[i..]) == WithFirst(d, coinbase, steps)
    {
      first := DoubleDigest(d, first + steps[i]);
      i := i + 1;
    }
  }

  /** Constructor and WithFirst together: the Merkle root of the block. */
  method BlockRoot(d: Digest, hashList: seq<Hash>, coinbase: Hash) returns (root: Hash)
    ensures root == Root(d, [coinbase] + hashList)
  {
    var steps := CalculateSteps(d, hashList);
    root := FoldFirst(d, steps, coinbase);
    BranchGivesRoot(d, coinbase, hashList);
  }
}
