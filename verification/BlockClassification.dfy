/** Classifying pending blocks by what the daemon says: BitcoinPayoutHandler.ClassifyBlocksAsync. */
module BlockClassification {
  import opened Ledger

  /** What the daemon says about the coinbase transaction of a block. */
  datatype Answer = Error(code: int) | NoDetails | Details(category: string)

  const PAGE_SIZE: nat := 100

  /** The block as it is to be written back, if it is to be written back. */
  function ClassifyOne(b: Block, a: Answer): (r: seq<Block>)
    ensures |r| <= 1
  {
    match a
    case Error(code) => if code == -5 then [b.(status := Orphaned)] else []
    case NoDetails => [b.(status := Orphaned)]
    case Details(category) =>
      if category == "immature" then [b]
      else if category == "generate" then [b.(status := Confirmed)]
      else [b.(status := Orphaned, reward := 0.0)]
  }

  function ClassifyPage(page: seq<Block>, results: seq<Answer>): seq<Block>
    requires |results| <= |page|
  {
    if results == [] then []
    else
      var n := |results| - 1;
      ClassifyPage(page[..n], results[..n]) + ClassifyOne(page[n], results[n])
  }

  function Page(blocks: seq<Block>, i: nat): seq<Block> {
    var from := if i * PAGE_SIZE <= |blocks| then i * PAGE_SIZE else |blocks|;
    var to := if from + PAGE_SIZE <= |blocks| then from + PAGE_SIZE else |blocks|;
    blocks[from..to]
  }

  function PageCount(n: nat): nat {
    (n + PAGE_SIZE - 1) / PAGE_SIZE
  }

  /** The first `pages` pages. A batch call may fail, and an answer without its block throws; answers
      may be missing. */
  function ClassifyPages(blocks: seq<Block>, batches: seq<Outcome<seq<Answer>>>, pages: nat): Outcome<seq<Block>>
    requires pages <= |batches|
  {
    if pages == 0 then Done([])
    else
      match ClassifyPages(blocks, batches, pages - 1)
      case Failed => Failed
      case Done(before) =>
        match batches[pages - 1]
        case Failed => Failed
        case Done(results) =>
          var page := Page(blocks, pages - 1);
          if |results| > |page| then Failed else Done(before + ClassifyPage(page, results))
  }

  /** The inner loop of ClassifyBlocksAsync over the answers for one page. */
  method ClassifyResults(page: seq<Block>, results: seq<Answer>, before: seq<Block>) returns (result: seq<Block>)
    requires |results| <= |page|
    ensures result == before + ClassifyPage(page, results)
  {
    hide ClassifyOne;
    result := before;
    var j := 0;
    while j < |results|
      invariant 0 <= j <= |results|
      invariant result == before + ClassifyPage(page[..j], results[..j])
    {
      ClassifyOneMore(page, results, j);
      result := result + ClassifyOne(page[j], results[j]);
      j := j + 1;
    }
    assert results[..j] == results;
    ClassifyPrefix(page, results);
  }

  /** ClassifyBlocksAsync. */
  method ClassifyBlocks(blocks: seq<Block>, batches: seq<Outcome<seq<Answer>>>) returns (r: Outcome<seq<Block>>)
    requires |batches| == PageCount(|blocks|)
    ensures r == ClassifyPages(blocks, batches, PageCount(|blocks|))
  {
    hide ClassifyPage, Page, PageCount;
    var pageCount := PageCount(|blocks|);
    var result: seq<Block> := [];
    var i := 0;
    while i < pageCount
      invariant 0 <= i <= pageCount
      invariant ClassifyPages(blocks, batches, i) == Done(result)
    {
      var page := Page(blocks, i);
      if batches[i].Failed? {
        FailureStays(blocks, batches, i + 1, pageCount);
        return Failed;
      }
      var results := batches[i].value;
      if |results| > |page| {
        FailureStays(blocks, batches, i + 1, pageCount);
        return Failed;
      }
      result := ClassifyResults(page, results, result);
      i := i + 1;
    }
    r := Done(result);
  }

  lemma ClassifyOneMore(page: seq<Block>, results: seq<Answer>, j: nat)
    requires j < |results| <= |page|
    ensures ClassifyPage(page[..j + 1], results[..j + 1])
      == ClassifyPage(page[..j], results[..j]) + ClassifyOne(page[j], results[j])
  {
    assert page[..j + 1][..j] == page[..j] && results[..j + 1][..j] == results[..j];
  }

  /** Only the blocks that got an answer matter. */
  lemma {:induction false} ClassifyPrefix(page: seq<Block>, results: seq<Answer>)
    requires |results| <= |page|
    ensures ClassifyPage(page[..|results|], results) == ClassifyPage(page, results)
  {
    if results != [] {
      var n := |results| - 1;
      assert page[..n + 1][..n] == page[..n];
    }
  }

  lemma {:induction false} FailureStays(blocks: seq<Block>, batches: seq<Outcome<seq<Answer>>>, i: nat, n: nat)
    requires i <= n <= |batches| && ClassifyPages(blocks, batches, i).Failed?
    ensures ClassifyPages(blocks, batches, n).Failed?
  {
    if i < n {
      FailureStays(blocks, batches, i, n - 1);
    }
  }

  /** Classifying throws exactly when a batch call does, or answers for more blocks than it was asked about. */
  lemma {:induction false} ThrowsWhen(blocks: seq<Block>, batches: seq<Outcome<seq<Answer>>>, pages: nat)
    requires pages <= |batches|
    ensures ClassifyPages(blocks, batches, pages).Failed? <==>
      exists i :: 0 <= i < pages && (batches[i].Failed? || |batches[i].value| > |Page(blocks, i)|)
  {
    hide Page, ClassifyPage;
    if pages > 0 {
      ThrowsWhen(blocks, batches, pages - 1);
    }
  }

  // ----- every pending block at most once, whatever the daemon answers -----

  predicate DistinctIds(bs: seq<Block>) {
    forall i, j :: 0 <= i < j < |bs| ==> bs[i].id != bs[j].id
  }

  /** `c` is block `b` with a new status; only an orphan may lose its reward. */
  predicate Reclassifies(b: Block, c: Block) {
    c.id == b.id && c.created == b.created && (c.reward == b.reward || (c.status == Orphaned && c.reward == 0.0))
  }

  /** `out` holds reclassified blocks of `blocks`, each at most once and in order. */
  predicate Thinned(out: seq<Block>, blocks: seq<Block>)
    decreases |blocks|
  {
    if blocks == [] then out == []
    else
      var n := |blocks| - 1;
      || Thinned(out, blocks[..n])
      || (out != [] && Reclassifies(blocks[n], out[|out| - 1]) && Thinned(out[..|out| - 1], blocks[..n]))
  }

  lemma {:induction false} ThinnedJoin(out: seq<Block>, blocks: seq<Block>, more: seq<Block>, page: seq<Block>)
    requires Thinned(out, blocks) && Thinned(more, page)
    ensures Thinned(out + more, blocks + page)
    decreases |page|
  {
    if page == [] {
      assert out + more == out && blocks + page == blocks;
    } else {
      var n := |page| - 1;
      assert (blocks + page)[..|blocks + page| - 1] == blocks + page[..n];
      if Thinned(more, page[..n]) {
        ThinnedJoin(out, blocks, more, page[..n]);
      } else {
        var m := |more| - 1;
        ThinnedJoin(out, blocks, more[..m], page[..n]);
        assert (out + more)[..|out + more| - 1] == out + more[..m];
      }
    }
  }

  lemma {:induction false} ThinnedNone(blocks: seq<Block>)
    ensures Thinned([], blocks)
    decreases |blocks|
  {
    if blocks != [] {
      ThinnedNone(blocks[..|blocks| - 1]);
    }
  }

  lemma {:induction false} ThinnedOrigin(out: seq<Block>, blocks: seq<Block>, k: nat) returns (j: nat)
    requires Thinned(out, blocks) && k < |out|
    ensures j < |blocks| && Reclassifies(blocks[j], out[k])
    decreases |blocks|
  {
    var n := |blocks| - 1;
    if Thinned(out, blocks[..n]) {
      j := ThinnedOrigin(out, blocks[..n], k);
    } else if k == |out| - 1 {
      j := n;
    } else {
      j := ThinnedOrigin(out[..|out| - 1], blocks[..n], k);
    }
  }

  lemma {:induction false} ThinnedDistinct(out: seq<Block>, blocks: seq<Block>)
    requires Thinned(out, blocks) && DistinctIds(blocks)
    ensures DistinctIds(out)
    decreases |blocks|
  {
    if blocks != [] {
      var n := |blocks| - 1;
      if Thinned(out, blocks[..n]) {
        ThinnedDistinct(out, blocks[..n]);
      } else {
        var m := |out| - 1;
        ThinnedDistinct(out[..m], blocks[..n]);
        forall k | 0 <= k < m ensures out[k].id != out[m].id {
          var j := ThinnedOrigin(out[..m], blocks[..n], k);
          assert blocks[j].id != blocks[n].id;
        }
      }
    }
  }

  lemma {:induction false} PageThins(page: seq<Block>, results: seq<Answer>)
    requires |results| <= |page|
    ensures Thinned(ClassifyPage(page, results), page)
    decreases |page|
  {
    hide Thinned;
    if results == [] {
      ThinnedNone(page);
    } else {
      var n := |page| - 1;
      var last := if |results| < |page| then results else results[..n];
      PageThins(page[..n], last);
      ThinnedLast(page[n], results[|results| - 1]);
      if |results| < |page| {
        PageShorter(page, results);
        ThinnedJoin(ClassifyPage(page[..n], last), page[..n], [], [page[n]]);
      } else {
        ThinnedJoin(ClassifyPage(page[..n], last), page[..n], ClassifyOne(page[n], results[n]), [page[n]]);
      }
      assert page[..n] + [page[n]] == page;
      assert ClassifyPage(page[..n], last) + [] == ClassifyPage(page[..n], last);
    }
  }

  /** A block without an answer makes no difference. */
  lemma PageShorter(page: seq<Block>, results: seq<Answer>)
    requires |results| < |page|
    ensures ClassifyPage(page[..|page| - 1], results) == ClassifyPage(page, results)
  {
    hide ClassifyPage;
    var front := page[..|page| - 1];
    ClassifyPrefix(page, results);
    ClassifyPrefix(front, results);
    assert front[..|results|] == page[..|results|];
  }

  lemma ThinnedLast(b: Block, a: Answer)
    ensures Thinned(ClassifyOne(b, a), [b]) && Thinned([], [b])
  {
    hide Thinned;
    OneThins(b, a);
    ThinnedNone([b]);
  }

  lemma OneThins(b: Block, a: Answer)
    ensures Thinned(ClassifyOne(b, a), [b])
  {
    var r := ClassifyOne(b, a);
    assert [b][..0] == [] && Thinned([], [b][..0]);
    if r != [] {
      assert Reclassifies(b, r[0]) && r[..|r| - 1] == [];
    }
  }

  function Covered(n: nat, pages: nat): (k: nat)
    ensures k <= n
  {
    if pages * PAGE_SIZE <= n then pages * PAGE_SIZE else n
  }

  /** The pages lie end to end. */
  lemma PageExtends(blocks: seq<Block>, i: nat)
    ensures blocks[..Covered(|blocks|, i + 1)] == blocks[..Covered(|blocks|, i)] + Page(blocks, i)
  {
  }

  lemma PagesCover(n: nat)
    ensures Covered(n, PageCount(n)) == n
  {
  }

  /** Whatever the batches hold, no pending block is returned twice and none is made up. */
  lemma {:induction false} PagesThin(blocks: seq<Block>, batches: seq<Outcome<seq<Answer>>>, pages: nat)
    requires pages <= |batches| && ClassifyPages(blocks, batches, pages).Done?
    ensures Thinned(ClassifyPages(blocks, batches, pages).value, blocks[..Covered(|blocks|, pages)])
  {
    hide Page, ClassifyPage, Covered, Thinned;
    if pages == 0 {
      assert blocks[..Covered(|blocks|, 0)] == [] by { NoPages(blocks); }
      ThinnedNone([]);
    } else {
      PagesThin(blocks, batches, pages - 1);
      var page := Page(blocks, pages - 1);
      PageThins(page, batches[pages - 1].value);
      ThinnedJoin(ClassifyPages(blocks, batches, pages - 1).value, blocks[..Covered(|blocks|, pages - 1)],
                  ClassifyPage(page, batches[pages - 1].value), page);
      PageExtends(blocks, pages - 1);
    }
  }

  lemma NoPages(blocks: seq<Block>)
    ensures blocks[..Covered(|blocks|, 0)] == []
  {
  }

  /** The answers of the first pages in one row. */
  function Joined(batches: seq<Outcome<seq<Answer>>>, pages: nat): seq<Answer>
    requires pages <= |batches|
  {
    if pages == 0 then []
    else Joined(batches, pages - 1) + (match batches[pages - 1] case Failed => [] case Done(answers) => answers)
  }

  lemma {:induction false} ClassifyPageJoin(page: seq<Block>, results: seq<Answer>,
                                            more: seq<Block>, answers: seq<Answer>)
    requires |results| == |page| && |answers| == |more|
    ensures ClassifyPage(page + more, results + answers) == ClassifyPage(page, results) + ClassifyPage(more, answers)
    decreases |more|
  {
    hide ClassifyOne;
    if more == [] {
      assert page + more == page && results + answers == results;
    } else {
      var n := |more| - 1;
      assert (page + more)[..|page + more| - 1] == page + more[..n];
      assert (results + answers)[..|page + more| - 1] == results + answers[..n];
      ClassifyPageJoin(page, results, more[..n], answers[..n]);
    }
  }

  ghost predicate FullyAnswered(blocks: seq<Block>, batches: seq<Outcome<seq<Answer>>>, pages: nat) {
    pages <= |batches| && forall i :: 0 <= i < pages ==> batches[i].Done? && |batches[i].value| == |Page(blocks, i)|
  }

  /** When every call answers for its whole page, paging cannot be seen: each block is classified by its own answer. */
  lemma {:induction false} PagingIsTransparent(blocks: seq<Block>, batches: seq<Outcome<seq<Answer>>>, pages: nat)
    requires FullyAnswered(blocks, batches, pages)
    ensures var prefix := blocks[..Covered(|blocks|, pages)];
      && |Joined(batches, pages)| == |prefix|
      && ClassifyPages(blocks, batches, pages) == Done(ClassifyPage(prefix, Joined(batches, pages)))
  {
    hide Page, ClassifyPage, Covered;
    if pages == 0 {
      NoPages(blocks);
      ClassifyNothing();
    } else {
      PagingIsTransparent(blocks, batches, pages - 1);
      var prefix := blocks[..Covered(|blocks|, pages - 1)];
      PageExtends(blocks, pages - 1);
      ClassifyPageJoin(prefix, Joined(batches, pages - 1), Page(blocks, pages - 1), batches[pages - 1].value);
    }
  }

  lemma ClassifyNothing()
    ensures ClassifyPage([], []) == []
  {
  }

  /** Of the blocks that come back, those with the id of block k are what its own answer makes of it. */
  lemma {:induction false} OnlyItsOwn(page: seq<Block>, results: seq<Answer>, k: nat, c: Block)
    requires |results| == |page| && DistinctIds(page) && k < |page|
    ensures c in ClassifyPage(page, results) && c.id == page[k].id <==> c in ClassifyOne(page[k], results[k])
  {
    var n := |page| - 1;
    var before, one := ClassifyPage(page[..n], results[..n]), ClassifyOne(page[n], results[n]);
    assert ClassifyPage(page, results) == before + one;
    OneThins(page[n], results[n]);
    if k < n {
      OnlyItsOwn(page[..n], results[..n], k, c);
      assert page[k].id != page[n].id;
      OneKeepsId(page[n], results[n], c);
      OneKeepsId(page[k], results[k], c);
    } else {
      OneKeepsId(page[n], results[n], c);
      if c in before {
        PageThins(page[..n], results[..n]);
        var i :| 0 <= i < |before| && before[i] == c;
        var j := ThinnedOrigin(before, page[..n], i);
        assert page[j].id != page[n].id;
      }
    }
  }

  lemma OneKeepsId(b: Block, a: Answer, c: Block)
    ensures c in ClassifyOne(b, a) ==> c.id == b.id
  {
  }

  /** The daemon does not know the coinbase transaction, has no details of it, or puts it in another category. */
  predicate SaysOrphan(a: Answer) {
    || a == Error(-5)
    || a.NoDetails?
    || (a.Details? && a.category != "immature" && a.category != "generate")
  }

  /** `c` comes back, with the id of `b`. */
  predicate ComesBack(out: seq<Block>, b: Block, c: Block) {
    c in out && c.id == b.id
  }

  /** What becomes of a pending block, by the answer to it: orphaned, confirmed, unchanged, or left out. Only
      another category costs an orphan its reward. */
  ghost predicate Answered(out: seq<Block>, b: Block, a: Answer) {
    && ((exists c :: ComesBack(out, b, c) && c.status == Orphaned) <==> SaysOrphan(a))
    && ((exists c :: ComesBack(out, b, c) && c.status == Confirmed) <==> a == Details("generate"))
    && (ComesBack(out, b, b) <==> a == Details("immature"))
    && ((forall c :: !ComesBack(out, b, c)) <==> a.Error? && a.code != -5)
    && (forall c :: ComesBack(out, b, c) ==>
      && c.created == b.created
      && c.reward == if SaysOrphan(a) && a.Details? then 0.0 else b.reward)
  }

  lemma OneAnswered(out: seq<Block>, b: Block, a: Answer)
    requires b.status == Pending && forall c :: ComesBack(out, b, c) <==> c in ClassifyOne(b, a)
    ensures Answered(out, b, a)
  {
    var one := ClassifyOne(b, a);
    if one != [] {
      assert one[0] in one;
      assert ComesBack(out, b, one[0]);
    }
  }

  /** Every pending block is treated by its own answer. */
  lemma FateByAnswer(blocks: seq<Block>, batches: seq<Outcome<seq<Answer>>>, k: nat)
    requires DistinctIds(blocks) && k < |blocks| && blocks[k].status == Pending
    requires FullyAnswered(blocks, batches, PageCount(|blocks|))
    ensures var pages := PageCount(|blocks|);
      && |Joined(batches, pages)| == |blocks| && ClassifyPages(blocks, batches, pages).Done?
      && Answered(ClassifyPages(blocks, batches, pages).value, blocks[k], Joined(batches, pages)[k])
  {
    hide ClassifyPages, Joined, ClassifyPage, ClassifyOne, PageCount, Covered, Answered;
    var pages := PageCount(|blocks|);
    PagingIsTransparent(blocks, batches, pages);
    PagesCover(|blocks|);
    assert blocks[..|blocks|] == blocks;
    var out, a := ClassifyPages(blocks, batches, pages).value, Joined(batches, pages)[k];
    forall c ensures ComesBack(out, blocks[k], c) <==> c in ClassifyOne(blocks[k], a) {
      OnlyItsOwn(blocks, Joined(batches, pages), k, c);
    }
    OneAnswered(out, blocks[k], a);
  }

  // ----- where a returned block comes from -----

  /** Answer `a` was given for block k of those asked for. */
  predicate AnswerFor(batches: seq<Outcome<seq<Answer>>>, k: nat, a: Answer) {
    var i, j := k / PAGE_SIZE, k % PAGE_SIZE;
    i < |batches| && batches[i].Done? && j < |batches[i].value| && batches[i].value[j] == a
  }

  lemma {:induction false} PageOrigin(page: seq<Block>, results: seq<Answer>, c: Block) returns (j: nat)
    requires |results| <= |page| && c in ClassifyPage(page, results)
    ensures j < |results| && c in ClassifyOne(page[j], results[j])
  {
    var n := |results| - 1;
    if c in ClassifyOne(page[n], results[n]) {
      j := n;
    } else {
      j := PageOrigin(page[..n], results[..n], c);
    }
  }

  /** A block that comes back has an answer, and is what that answer makes of it. */
  lemma {:induction false} Origin(blocks: seq<Block>, batches: seq<Outcome<seq<Answer>>>, pages: nat, c: Block)
    returns (k: nat, a: Answer)
    requires pages <= |batches| && ClassifyPages(blocks, batches, pages).Done?
    requires c in ClassifyPages(blocks, batches, pages).value
    ensures k < |blocks| && AnswerFor(batches, k, a) && c in ClassifyOne(blocks[k], a)
  {
    hide ClassifyPage, ClassifyOne;
    if c in ClassifyPages(blocks, batches, pages - 1).value {
      k, a := Origin(blocks, batches, pages - 1, c);
    } else {
      var i := pages - 1;
      var results := batches[i].value;
      var j := PageOrigin(Page(blocks, i), results, c);
      k, a := i * PAGE_SIZE + j, results[j];
      DivModOfPage(i, j);
    }
  }

  lemma DivModOfPage(i: nat, j: nat)
    requires j < PAGE_SIZE
    ensures (i * PAGE_SIZE + j) / PAGE_SIZE == i && (i * PAGE_SIZE + j) % PAGE_SIZE == j
  {
  }

  /** A pending block comes back confirmed exactly when the daemon calls its coinbase spendable. */
  lemma ConfirmedIffGenerated(blocks: seq<Block>, batches: seq<Outcome<seq<Answer>>>, k: nat)
    requires DistinctIds(blocks) && k < |blocks| && blocks[k].status == Pending
    requires FullyAnswered(blocks, batches, PageCount(|blocks|))
    ensures var pages := PageCount(|blocks|);
      && |Joined(batches, pages)| == |blocks| && ClassifyPages(blocks, batches, pages).Done?
      && ((exists c ::
             ComesBack(ClassifyPages(blocks, batches, pages).value, blocks[k], c) && c.status == Confirmed)
          <==> Joined(batches, pages)[k] == Details("generate"))
  {
    hide ClassifyPages, Joined, PageCount;
    FateByAnswer(blocks, batches, k);
  }
}
