/** Recovering shares from a file in batches: ShareRecorder.RecoverShares and PersistShares. */
module ShareRecovery {

  datatype Share = Share(id: int, isBlockCandidate: bool)

  /** A line of the recovery file once trimmed: blank or a comment, a share, or text that does not parse. */
  datatype Entry = Skipped | Record(share: Share) | Unparsable

  const BUFFER_SIZE: nat := 20

  function Shares(es: seq<Entry>): seq<Share> {
    if es == [] then []
    else Shares(es[..|es| - 1]) + (match es[|es| - 1] case Record(share) => [share] case _ => [])
  }

  function UnparsableCount(es: seq<Entry>): nat {
    if es == [] then 0 else UnparsableCount(es[..|es| - 1]) + (if es[|es| - 1].Unparsable? then 1 else 0)
  }

  function Candidates(ss: seq<Share>): seq<Share> {
    if ss == [] then []
    else Candidates(ss[..|ss| - 1]) + (if ss[|ss| - 1].isBlockCandidate then [ss[|ss| - 1]] else [])
  }

  lemma {:induction false} CandidatesAppend(ss: seq<Share>, ts: seq<Share>)
    ensures Candidates(ss + ts) == Candidates(ss) + Candidates(ts)
  {
    if ts == [] {
      assert ss + ts == ss;
    } else {
      var n := |ts| - 1;
      assert (ss + ts)[..|ss + ts| - 1] == ss + ts[..n];
      CandidatesAppend(ss, ts[..n]);
    }
  }

  /** Exactly the shares that are block candidates, as often as they occur. */
  lemma {:induction false} CandidatesAre(ss: seq<Share>, s: Share)
    ensures multiset(Candidates(ss))[s] == if s.isBlockCandidate then multiset(ss)[s] else 0
  {
    if ss != [] {
      var n := |ss| - 1;
      CandidatesAre(ss[..n], s);
      assert ss == ss[..n] + [ss[n]];
    }
  }

  /** The shares of the file are those of its records, one for one. */
  lemma {:induction false} SharesAre(es: seq<Entry>, s: Share)
    ensures multiset(Shares(es))[s] == multiset(es)[Record(s)]
  {
    if es != [] {
      var n := |es| - 1;
      SharesAre(es[..n], s);
      assert es == es[..n] + [es[n]];
      CountAppend(es[..n], es[n], Record(s));
      if es[n].Record? {
        CountAppend(Shares(es[..n]), es[n].share, s);
      }
    }
  }

  lemma CountAppend<T>(a: seq<T>, x: T, y: T)
    ensures multiset(a + [x])[y] == multiset(a)[y] + (if x == y then 1 else 0)
  {
  }

  // ----- one import -----

  /** The shares and the pending blocks that are stored. */
  class Database {
    var shares: seq<Share>
    var blocks: seq<Share>

    constructor ()
      ensures shares == [] && blocks == []
    {
      shares, blocks := [], [];
    }

    /** Undoing the open transaction. */
    method Rollback(s: seq<Share>, b: seq<Share>)
      modifies this
      ensures shares == s && blocks == b
    {
      shares, blocks := s, b;
    }
  }

  /** The inserts of a batch and the commit. */
  function Operations(batch: seq<Share>): nat {
    |batch| + |Candidates(batch)| + 1
  }

  /** The inserts of PersistShares; operation number `failAt` throws. */
  method InsertShares(db: Database, batch: seq<Share>, failAt: nat) returns (ok: bool)
    modifies db
    ensures ok == (Operations(batch) <= failAt)
    ensures ok ==> db.shares == old(db.shares) + batch && db.blocks == old(db.blocks) + Candidates(batch)
  {
    var ops: nat := 0;
    var i := 0;
    assert batch[..0] == [];
    while i < |batch|
      invariant 0 <= i <= |batch| && ops <= failAt
      invariant ops == i + |Candidates(batch[..i])|
      invariant db.shares == old(db.shares) + batch[..i] && db.blocks == old(db.blocks) + Candidates(batch[..i])
    {
      var share := batch[i];
      assert batch[..i + 1][..i] == batch[..i];
      CandidatesAppend(batch[..i + 1], batch[i + 1..]);
      assert batch[..i + 1] + batch[i + 1..] == batch;
      var inserts := if share.isBlockCandidate then 2 else 1;
      if ops + inserts > failAt {
        return false;
      }
      db.shares := db.shares + [share];
      if share.isBlockCandidate {
        db.blocks := db.blocks + [share];
      }
      ops := ops + inserts;
      i := i + 1;
    }
    assert batch[..i] == batch;
    ok := ops < failAt;
  }

  /** PersistShares: the whole batch with its blocks, or nothing. */
  method PersistShares(db: Database, batch: seq<Share>, failAt: nat) returns (ok: bool)
    modifies db
    ensures ok == (Operations(batch) <= failAt)
    ensures db.shares == old(db.shares) + if ok then batch else []
    ensures db.blocks == old(db.blocks) + if ok then Candidates(batch) else []
  {
    hide Operations, Candidates;
    var s, b := db.shares, db.blocks;
    ok := InsertShares(db, batch, failAt);
    if !ok {
      db.Rollback(s, b);
    }
  }

  // ----- the recovery loop -----

  /** What has been committed, what waits in the list, and the counts of imports tried and of failures. */
  datatype State = State(committed: seq<Share>, shares: seq<Share>, imports: nat, failCount: nat)

  /** The import of the whole list; import number k throws at operation failAts(k). */
  function Import(s: State, failAts: nat -> nat): State {
    if Operations(s.shares) <= failAts(s.imports)
    then State(s.committed + s.shares, [], s.imports + 1, s.failCount)
    else s.(imports := s.imports + 1, failCount := s.failCount + 1)
  }

  function Parse(s: State, e: Entry): State {
    match e
    case Skipped => s
    case Record(share) => s.(shares := s.shares + [share])
    case Unparsable => s.(failCount := s.failCount + 1)
  }

  /** One line; the import is looked at after every line that is not skipped, even one that did not parse. */
  function Line(s: State, e: Entry, failAts: nat -> nat): State {
    var t := Parse(s, e);
    if !e.Skipped? && |t.shares| == BUFFER_SIZE then Import(t, failAts) else t
  }

  function Lines(es: seq<Entry>, failAts: nat -> nat): State {
    if es == [] then State([], [], 0, 0) else Line(Lines(es[..|es| - 1], failAts), es[|es| - 1], failAts)
  }

  function Recovered(es: seq<Entry>, failAts: nat -> nat): State {
    var s := Lines(es, failAts);
    if |s.shares| > 0 then Import(s, failAts) else s
  }

  /** RecoverShares, up to its success counter and logging. */
  method RecoverShares(db: Database, es: seq<Entry>, failAts: nat -> nat) returns (failCount: nat)
    modifies db
    ensures var r := Recovered(es, failAts);
      && failCount == r.failCount
      && db.shares == old(db.shares) + r.committed
      && db.blocks == old(db.blocks) + Candidates(r.committed)
  {
    hide Candidates, Operations, Lines;
    var shares: seq<Share> := [];
    failCount := 0;
    var imports := 0;
    ghost var committed: seq<Share> := [];
    var i := 0;
    LinesNone(failAts);
    assert es[..0] == [] && Candidates([]) == [] by { CandidatesNone(); }
    while i < |es|
      invariant 0 <= i <= |es|
      invariant Lines(es[..i], failAts) == State(committed, shares, imports, failCount)
      invariant db.shares == old(db.shares) + committed && db.blocks == old(db.blocks) + Candidates(committed)
    {
      LinesOneMore(es, failAts, i);
      var line := es[i];
      i := i + 1;
      if line.Skipped? {
        continue;
      }
      match line {
        case Record(share) => shares := shares + [share];
        case Unparsable => failCount := failCount + 1;
      }
      if |shares| == BUFFER_SIZE {
        var ok := PersistShares(db, shares, failAts(imports));
        imports := imports + 1;
        if ok {
          CandidatesAppend(committed, shares);
          committed := committed + shares;
          shares := [];
        } else {
          failCount := failCount + 1;
        }
      }
    }
    assert es[..i] == es;
    if |shares| > 0 {
      var ok := PersistShares(db, shares, failAts(imports));
      if ok {
        CandidatesAppend(committed, shares);
      } else {
        failCount := failCount + 1;
      }
    }
  }

  lemma CandidatesNone()
    ensures Candidates([]) == []
  {
  }

  lemma LinesNone(failAts: nat -> nat)
    ensures Lines([], failAts) == State([], [], 0, 0)
  {
  }

  lemma LinesOneMore(es: seq<Entry>, failAts: nat -> nat, i: nat)
    requires i < |es|
    ensures Lines(es[..i + 1], failAts) == Line(Lines(es[..i], failAts), es[i], failAts)
  {
    assert es[..i + 1][..i] == es[..i];
  }

  // ----- nothing is lost and nothing is stored twice -----

  /** Committed and waiting shares together are the shares read so far, and every failed import is counted. */
  lemma {:induction false} NothingLost(es: seq<Entry>, failAts: nat -> nat)
    ensures var s := Lines(es, failAts);
      && s.committed + s.shares == Shares(es)
      && s.failCount >= UnparsableCount(es)
  {
    hide Operations;
    if es != [] {
      NothingLost(es[..|es| - 1], failAts);
    }
  }

  /** What ends up stored is a prefix of the shares in the file: all of them, unless the last import failed,
      and then the failure was counted. */
  lemma RecoveredIsPrefix(es: seq<Entry>, failAts: nat -> nat)
    ensures var s := Lines(es, failAts);
      var r := Recovered(es, failAts);
      && r.committed + r.shares == Shares(es)
      && (r.committed == Shares(es) <==> s.shares == [] || Operations(s.shares) <= failAts(s.imports))
      && (r.failCount == 0 ==> r.committed == Shares(es))
      && r.failCount >= UnparsableCount(es)
  {
    hide Operations, Lines;
    NothingLost(es, failAts);
    var s := Lines(es, failAts);
    if s.shares != [] {
      assert |s.committed| < |s.committed + s.shares|;
    }
  }

  /** Without a failing import every batch that the loop commits has twenty shares, and only unparsable lines
      count as failures. */
  lemma {:induction false} FullBatches(es: seq<Entry>, failAts: nat -> nat)
    requires forall k: nat :: failAts(k) > 2 * BUFFER_SIZE
    ensures var s := Lines(es, failAts);
      && |s.shares| < 20 && |s.committed| == s.imports * 20 && s.failCount == UnparsableCount(es)
  {
    hide Operations;
    if es != [] {
      var n := |es| - 1;
      FullBatches(es[..n], failAts);
      FewOperations(Parse(Lines(es[..n], failAts), es[n]).shares);
    }
  }

  lemma {:induction false} FewCandidates(ss: seq<Share>)
    ensures |Candidates(ss)| <= |ss|
  {
    if ss != [] {
      FewCandidates(ss[..|ss| - 1]);
    }
  }

  lemma FewOperations(ss: seq<Share>)
    ensures Operations(ss) <= 2 * |ss| + 1
  {
    FewCandidates(ss);
  }

  /** Once the list has outgrown the batch size, nothing is imported before the end of the file. */
  lemma {:induction false} OutgrownWaits(es: seq<Entry>, more: seq<Entry>, failAts: nat -> nat)
    requires |Lines(es, failAts).shares| > BUFFER_SIZE
    ensures var s := Lines(es, failAts);
      var t := Lines(es + more, failAts);
      t.committed == s.committed && t.imports == s.imports && t.shares == s.shares + Shares(more)
  {
    hide Operations;
    if more == [] {
      assert es + more == es;
    } else {
      var n := |more| - 1;
      assert (es + more)[..|es + more| - 1] == es + more[..n];
      OutgrownWaits(es, more[..n], failAts);
    }
  }

  /** A failed import outgrows the batch size with the next share; a line that does not parse tries it again. */
  lemma AfterFailure(s: State, e: Entry, failAts: nat -> nat)
    requires |s.shares| == BUFFER_SIZE
    ensures Line(s, e, failAts).imports == s.imports + (if e.Unparsable? then 1 else 0)
    ensures |Line(s, e, failAts).shares| > BUFFER_SIZE <==> e.Record?
  {
    hide Operations;
  }
}
