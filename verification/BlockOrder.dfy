/** The order in which classified blocks are processed: OrderBy(x => x.Created), a stable sort. */
module BlockOrder {
  import opened Ledger
  import opened BlockClassification

  /** Insertion behind every block that is not younger. */
  function InsertByCreated(bs: seq<Block>, b: Block): seq<Block> {
    if bs == [] || bs[|bs| - 1].created <= b.created then bs + [b]
    else InsertByCreated(bs[..|bs| - 1], b) + [bs[|bs| - 1]]
  }

  function OrderByCreated(bs: seq<Block>): seq<Block> {
    if bs == [] then [] else InsertByCreated(OrderByCreated(bs[..|bs| - 1]), bs[|bs| - 1])
  }

  predicate Sorted(bs: seq<Block>) {
    forall i, j :: 0 <= i < j < |bs| ==> bs[i].created <= bs[j].created
  }

  lemma {:induction false} InsertElements(bs: seq<Block>, b: Block)
    ensures multiset(InsertByCreated(bs, b)) == multiset(bs) + multiset{b}
  {
    var n := |bs| - 1;
    if bs != [] && bs[n].created > b.created {
      InsertElements(bs[..n], b);
      assert bs == bs[..n] + [bs[n]];
    }
  }

  lemma {:induction false} InsertSorted(bs: seq<Block>, b: Block)
    requires Sorted(bs)
    ensures Sorted(InsertByCreated(bs, b))
  {
    var n := |bs| - 1;
    if bs != [] && bs[n].created > b.created {
      InsertSorted(bs[..n], b);
      InsertElements(bs[..n], b);
      var r := InsertByCreated(bs[..n], b);
      forall i | 0 <= i < |r| ensures r[i].created <= bs[n].created {
        assert r[i] in multiset(r);
        assert r[i] == b || r[i] in bs[..n];
      }
    }
  }

  /** Sorting by age keeps every block, as often as it was there. */
  lemma {:induction false} OrderKeeps(bs: seq<Block>)
    ensures var r := OrderByCreated(bs); Sorted(r) && multiset(r) == multiset(bs)
  {
    hide InsertByCreated;
    if bs != [] {
      var n := |bs| - 1;
      OrderKeeps(bs[..n]);
      InsertSorted(OrderByCreated(bs[..n]), bs[n]);
      InsertElements(OrderByCreated(bs[..n]), bs[n]);
      assert bs == bs[..n] + [bs[n]];
    }
  }

  /** The blocks of one age, in their order. */
  function At(bs: seq<Block>, t: int): seq<Block> {
    if bs == [] then [] else At(bs[..|bs| - 1], t) + (if bs[|bs| - 1].created == t then [bs[|bs| - 1]] else [])
  }

  lemma {:induction false} NoneAt(bs: seq<Block>, t: int)
    requires forall i :: 0 <= i < |bs| ==> bs[i].created != t
    ensures At(bs, t) == []
  {
    if bs != [] {
      NoneAt(bs[..|bs| - 1], t);
    }
  }

  lemma {:induction false} InsertAt(bs: seq<Block>, b: Block, t: int)
    requires Sorted(bs)
    ensures At(InsertByCreated(bs, b), t) == At(bs, t) + (if b.created == t then [b] else [])
  {
    var n := |bs| - 1;
    if bs == [] || bs[n].created <= b.created {
      assert (bs + [b])[..|bs|] == bs;
    } else {
      InsertAt(bs[..n], b, t);
      var r := InsertByCreated(bs[..n], b);
      assert (r + [bs[n]])[..|r|] == r;
    }
  }

  /** Blocks of the same age keep their order. */
  lemma {:induction false} OrderIsStable(bs: seq<Block>, t: int)
    ensures At(OrderByCreated(bs), t) == At(bs, t)
  {
    if bs != [] {
      var n := |bs| - 1;
      OrderIsStable(bs[..n], t);
      OrderKeeps(bs[..n]);
      InsertAt(OrderByCreated(bs[..n]), bs[n], t);
    }
  }

  lemma OnceInParts(bs: seq<Block>, i: nat, j: nat)
    requires i < j < |bs| && bs[i] == bs[j]
    ensures multiset(bs)[bs[i]] >= 2
  {
    assert bs == bs[..j] + bs[j..];
    assert bs[i] in bs[..j] && bs[j] in bs[j..];
    assert bs[..j][i] == bs[i] && bs[j..][0] == bs[j];
  }

  lemma {:induction false} DistinctCounts(bs: seq<Block>, b: Block)
    requires DistinctIds(bs) && b in bs
    ensures multiset(bs)[b] == 1
  {
    var n := |bs| - 1;
    assert bs == bs[..n] + [bs[n]];
    if b in bs[..n] {
      DistinctCounts(bs[..n], b);
    }
  }

  lemma DistinctInAnyOrder(bs: seq<Block>, cs: seq<Block>)
    requires DistinctIds(bs) && multiset(bs) == multiset(cs)
    ensures DistinctIds(cs)
  {
    forall i, j | 0 <= i < j < |cs| ensures cs[i].id != cs[j].id {
      assert cs[i] in multiset(cs) && cs[j] in multiset(cs);
      if cs[i] == cs[j] {
        OnceInParts(cs, i, j);
        DistinctCounts(bs, cs[i]);
      }
    }
  }
}
