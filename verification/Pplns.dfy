/** The PPLNS scheme: PPLNSPaymentScheme.CalculateRewards pays the latest shares up to a window of
    accumulated score, reading them from the table page by page. */
module Pplns {
  import opened Ledger
  import opened BlockRewards
  import opened RewardRuns
  import opened ShareTable

  /** The dictionary of rewards in order of insertion. */
  function AddReward(rewards: seq<(Address, real)>, a: Address, x: real): seq<(Address, real)> {
    if rewards == [] then [(a, x)]
    else if rewards[0].0 == a then [(a, rewards[0].1 + x)] + rewards[1..]
    else [rewards[0]] + AddReward(rewards[1..], a, x)
  }

  predicate Holds(rewards: seq<(Address, real)>, a: Address) {
    exists i :: 0 <= i < |rewards| && rewards[i].0 == a
  }

  /** Every address once, with something to credit. */
  predicate Proper(rewards: seq<(Address, real)>) {
    && (forall i :: 0 <= i < |rewards| ==> rewards[i].1 > 0.0)
    && (forall i, j :: 0 <= i < j < |rewards| ==> rewards[i].0 != rewards[j].0)
  }

  lemma {:induction false} AddRewardTotal(rewards: seq<(Address, real)>, a: Address, x: real)
    ensures SumOf(AddReward(rewards, a, x)) == SumOf(rewards) + x
  {
    if rewards != [] {
      var r := AddReward(rewards, a, x);
      if rewards[0].0 == a {
        assert r[1..] == rewards[1..];
      } else {
        AddRewardTotal(rewards[1..], a, x);
        assert r[1..] == AddReward(rewards[1..], a, x);
      }
    }
  }

  /** Only the address that earned it is credited. */
  lemma {:induction false} AddRewardTo(rewards: seq<(Address, real)>, a: Address, x: real, b: Address)
    ensures CreditOf(AddReward(rewards, a, x), b) == CreditOf(rewards, b) + (if b == a then x else 0.0)
  {
    var r := AddReward(rewards, a, x);
    if rewards == [] {
      assert r[1..] == [];
    } else if rewards[0].0 == a {
      assert r[1..] == rewards[1..];
    } else {
      AddRewardTo(rewards[1..], a, x, b);
      assert r[1..] == AddReward(rewards[1..], a, x);
    }
  }

  lemma {:induction false} AddRewardProper(rewards: seq<(Address, real)>, a: Address, x: real)
    requires Proper(rewards) && x > 0.0
    ensures Proper(AddReward(rewards, a, x))
    ensures forall i :: 0 <= i < |AddReward(rewards, a, x)| ==>
      AddReward(rewards, a, x)[i].0 == a || Holds(rewards, AddReward(rewards, a, x)[i].0)
  {
    if rewards != [] {
      var r := AddReward(rewards, a, x);
      if rewards[0].0 == a {
        assert forall i :: 0 < i < |r| ==> r[i] == rewards[i];
      } else {
        AddRewardProper(rewards[1..], a, x);
        HoldsLater(rewards);
      }
    }
  }

  lemma HoldsLater(rewards: seq<(Address, real)>)
    requires rewards != [] && Proper(rewards)
    ensures forall a :: Holds(rewards[1..], a) ==> Holds(rewards, a) && a != rewards[0].0
  {
    forall a | Holds(rewards[1..], a) ensures Holds(rewards, a) && a != rewards[0].0 {
      var k :| 0 <= k < |rewards[1..]| && rewards[1..][k].0 == a;
      assert rewards[k + 1].0 == a;
    }
  }

  /** The part of the reward that a score stands for. */
  function Earned(score: real, window: real, blockReward: real): real
    requires window > 0.0
  {
    score * blockReward / window
  }

  /** The locals of CalculateRewards. */
  datatype State = State(rewards: seq<(Address, real)>, accumulated: real, remaining: real, done: bool, threw: bool)

  /** One share; the one that reaches the window only gets what is left of it. */
  function Step(s: State, share: Share, window: real, blockReward: real): State
    requires window > 0.0
  {
    if s.done || s.threw then s
    else
      var done := s.accumulated + share.score >= window;
      var score := if done then window - s.accumulated else share.score;
      var reward := Earned(score, window, blockReward);
      var t := s.(accumulated := s.accumulated + score, remaining := s.remaining - reward, done := done);
      if t.remaining <= 0.0 && !done then t.(threw := true)
      else if reward > 0.0 then t.(rewards := AddReward(s.rewards, share.address, reward))
      else t
  }

  function Start(blockReward: real): State {
    State([], 0.0, blockReward, false, false)
  }

  function Run(shares: seq<Share>, window: real, blockReward: real): State
    requires window > 0.0
  {
    if shares == [] then Start(blockReward)
    else Step(Run(shares[..|shares| - 1], window, blockReward), shares[|shares| - 1], window, blockReward)
  }

  // ----- the loops -----

  lemma {:induction false} RunStops(a: seq<Share>, b: seq<Share>, window: real, blockReward: real)
    requires window > 0.0 && (Run(a, window, blockReward).done || Run(a, window, blockReward).threw)
    ensures Run(a + b, window, blockReward) == Run(a, window, blockReward)
  {
    if b == [] {
      assert a + b == a;
    } else {
      var n := |b| - 1;
      assert (a + b)[..|a + b| - 1] == a + b[..n];
      RunStops(a, b[..n], window, blockReward);
    }
  }

  lemma RunOneMore(a: seq<Share>, share: Share, window: real, blockReward: real)
    requires window > 0.0
    ensures Run(a + [share], window, blockReward) == Step(Run(a, window, blockReward), share, window, blockReward)
  {
    assert (a + [share])[..|a + [share]| - 1] == a;
  }

  /** The shares of one page. */
  method ReadPage(s: State, page: seq<Share>, window: real, blockReward: real, ghost before: seq<Share>)
    returns (t: State)
    requires window > 0.0 && s == Run(before, window, blockReward)
    ensures t == Run(before + page, window, blockReward)
  {
    hide Run, Step;
    t := s;
    var i := 0;
    assert before + page[..0] == before;
    while !t.done && !t.threw && i < |page|
      invariant 0 <= i <= |page| && t == Run(before + page[..i], window, blockReward)
    {
      RunOneMore(before + page[..i], page[i], window, blockReward);
      assert before + page[..i] + [page[i]] == before + page[..i + 1];
      t := Step(t, page[i], window, blockReward);
      i := i + 1;
    }
    if i == |page| {
      assert page[..i] == page;
    } else {
      assert before + page[..i] + page[i..] == before + page;
      RunStops(before + page[..i], page[i..], window, blockReward);
    }
  }

  /** CalculateRewards: pages are read from the table until the window is full, the table ends or the check throws. */
  method CalculateRewards(table: seq<Share>, created: int, pageSize: nat, window: real, blockReward: real)
    returns (t: State)
    requires window > 0.0 && pageSize >= 1 && NewestFirst(table)
    ensures t == Run(Read(Before(table, created, true), pageSize), window, blockReward)
  {
    hide Run, Read, Before;
    t := Start(blockReward);
    NoShares(window, blockReward);
    var before, inclusive := created, true;
    ghost var read: seq<Share> := [];
    ghost var all := Read(Before(table, created, true), pageSize);
    assert [] + all == all;
    while !t.done && !t.threw
      invariant t == Run(read, window, blockReward)
      invariant read + Read(Before(table, before, inclusive), pageSize) == all
      decreases |Before(table, before, inclusive)|
    {
      var page := ReadSharesBeforeCreated(table, before, inclusive, pageSize);
      t := ReadPage(t, page, window, blockReward, read);
      ReadOneMore(table, before, inclusive, pageSize);
      read := read + page;
      if |page| < pageSize {
        return;
      }
      inclusive := false;
      before := page[|page| - 1].created;
    }
    RunStops(read, Read(Before(table, before, inclusive), pageSize), window, blockReward);
  }

  /** One page, and what the next query leaves to read. */
  lemma ReadOneMore(table: seq<Share>, before: int, inclusive: bool, pageSize: nat)
    requires pageSize >= 1
    ensures
      var rows := Before(table, before, inclusive);
      var page := ReadSharesBeforeCreated(table, before, inclusive, pageSize);
      if |page| < pageSize then Read(rows, pageSize) == page
      else
        var next := Before(table, page[|page| - 1].created, false);
        |page| == pageSize && Read(rows, pageSize) == page + Read(next, pageSize) && |next| < |rows|
  {
    var rows := Before(table, before, inclusive);
    if |rows| >= pageSize {
      BeforeTwice(table, before, inclusive, rows[pageSize - 1].created);
      BeforeDrops(rows, pageSize - 1);
    }
  }

  lemma NoShares(window: real, blockReward: real)
    requires window > 0.0
    ensures Run([], window, blockReward) == Start(blockReward)
  {
  }

  /** How many of the shares are looked at before the window is full or the check throws. */
  function Used(shares: seq<Share>, window: real, blockReward: real): (n: nat)
    requires window > 0.0
    ensures n <= |shares|
  {
    if shares == [] then 0
    else
      var front := shares[..|shares| - 1];
      var s := Run(front, window, blockReward);
      if s.done || s.threw then Used(front, window, blockReward) else |shares|
  }

  lemma {:induction false} UsedSuffices(shares: seq<Share>, window: real, blockReward: real)
    requires window > 0.0
    ensures
      var n := Used(shares, window, blockReward);
      var s := Run(shares[..n], window, blockReward);
      && Run(shares, window, blockReward) == s
      && (n < |shares| ==> s.done || s.threw)
  {
    if shares != [] {
      var m := |shares| - 1;
      var front := shares[..m];
      UsedSuffices(front, window, blockReward);
      var n := Used(shares, window, blockReward);
      assert n <= m ==> front[..n] == shares[..n];
      assert shares[..|shares|] == shares;
    }
  }

  /** Every share of the window is read if and only if no page ends inside it between two shares of the same
      time; then the rewards are those of all shares of the table. */
  lemma WindowIsRead(rows: seq<Share>, pageSize: nat, window: real, blockReward: real)
    requires NewestFirst(rows) && pageSize >= 1 && window > 0.0
    ensures
      var n := Used(rows, window, blockReward);
      && (ReadsFirst(rows, pageSize, n) <==> NoTieAtPageEnd(rows, pageSize, n))
      && (ReadsFirst(rows, pageSize, n) ==>
            Run(Read(rows, pageSize), window, blockReward) == Run(rows, window, blockReward))
  {
    hide Run, NoTieAtPageEnd, Read, Used;
    var n := Used(rows, window, blockReward);
    ReadsExactlyWithoutTies(rows, pageSize, n);
    UsedSuffices(rows, window, blockReward);
    if ReadsFirst(rows, pageSize, n) {
      var r := Read(rows, pageSize);
      assert r == rows[..n] + r[n..];
      if n < |rows| {
        RunStops(rows[..n], r[n..], window, blockReward);
      } else {
        ReadsNoMore(rows, pageSize);
        assert r == rows;
      }
    }
  }

  // ----- what it pays -----

  ghost predicate Fair(s: State, window: real, blockReward: real)
    requires window > 0.0
  {
    && !s.threw && Proper(s.rewards)
    && 0.0 <= s.accumulated <= window && (s.done <==> s.accumulated == window)
    && SumOf(s.rewards) == Earned(s.accumulated, window, blockReward)
    && s.remaining == blockReward - Earned(s.accumulated, window, blockReward)
  }

  lemma EarnedAdds(a: real, b: real, window: real, blockReward: real)
    requires window > 0.0
    ensures Earned(a + b, window, blockReward) == Earned(a, window, blockReward) + Earned(b, window, blockReward)
  {
  }

  lemma EarnedBounds(a: real, window: real, blockReward: real)
    requires window > 0.0 && blockReward > 0.0
    ensures a < window ==> Earned(a, window, blockReward) < blockReward
    ensures a == window ==> Earned(a, window, blockReward) == blockReward
    ensures a > 0.0 ==> Earned(a, window, blockReward) > 0.0
    ensures a == 0.0 ==> Earned(a, window, blockReward) == 0.0
  {
    var q := blockReward / window;
    assert q > 0.0 && window * q == blockReward && Earned(a, window, blockReward) == a * q;
    assert blockReward - a * q == (window - a) * q;
  }

  lemma FairStep(s: State, share: Share, window: real, blockReward: real)
    requires window > 0.0 && blockReward > 0.0 && share.score >= 0.0 && Fair(s, window, blockReward)
    ensures Fair(Step(s, share, window, blockReward), window, blockReward)
  {
    hide Earned, Proper, SumOf, AddReward;
    if !s.done {
      var done := s.accumulated + share.score >= window;
      var score := if done then window - s.accumulated else share.score;
      var reward := Earned(score, window, blockReward);
      EarnedAdds(s.accumulated, score, window, blockReward);
      EarnedBounds(s.accumulated + score, window, blockReward);
      ScoreEarns(score, window, blockReward);
      if reward > 0.0 {
        AddRewardTotal(s.rewards, share.address, reward);
        AddRewardProper(s.rewards, share.address, reward);
      }
    }
  }

  lemma ScoreEarns(score: real, window: real, blockReward: real)
    requires window > 0.0 && blockReward > 0.0 && score >= 0.0
    ensures Earned(score, window, blockReward) >= 0.0
  {
    assert score * blockReward >= 0.0;
  }

  /** For a positive reward the overflow exception never happens and each address is credited once. The credits
      are the share of the reward that the score has of the window: all of it exactly when the window fills up. */
  lemma {:induction false} PaysByScore(shares: seq<Share>, window: real, blockReward: real)
    requires window > 0.0 && blockReward > 0.0
    requires forall i :: 0 <= i < |shares| ==> shares[i].score >= 0.0
    ensures var s := Run(shares, window, blockReward);
      && Fair(s, window, blockReward)
      && SumOf(s.rewards) <= blockReward
      && (SumOf(s.rewards) == blockReward <==> s.done)
  {
    hide Earned, Proper, SumOf, Step;
    EarnedBounds(0.0, window, blockReward);
    if shares == [] {
      NoRewards();
    } else {
      var n := |shares| - 1;
      PaysByScore(shares[..n], window, blockReward);
      FairStep(Run(shares[..n], window, blockReward), shares[n], window, blockReward);
    }
    EarnedBounds(Run(shares, window, blockReward).accumulated, window, blockReward);
  }

  // ----- who is paid -----

  /** How far these shares go into the window. */
  function Inside(shares: seq<Share>, window: real): real {
    if shares == [] then 0.0
    else
      var before := Inside(shares[..|shares| - 1], window);
      if before + shares[|shares| - 1].score >= window then window else before + shares[|shares| - 1].score
  }

  /** The score of one address inside the window; the share that fills it counts with what was left. */
  function ScoreInside(shares: seq<Share>, window: real, a: Address): real {
    if shares == [] then 0.0
    else
      var n := |shares| - 1;
      ScoreInside(shares[..n], window, a)
      + (if shares[n].address == a then Inside(shares, window) - Inside(shares[..n], window) else 0.0)
  }

  /** For a positive reward every address is credited for its own score inside the window, and in proportion to it. */
  lemma EachIsPaidItsScore(shares: seq<Share>, window: real, blockReward: real, a: Address)
    requires window > 0.0 && blockReward > 0.0
    requires forall i :: 0 <= i < |shares| ==> shares[i].score >= 0.0
    ensures CreditOf(Run(shares, window, blockReward).rewards, a) * window
      == blockReward * ScoreInside(shares, window, a)
  {
    hide Run, CreditOf, ScoreInside;
    EachEarns(shares, window, blockReward, a);
    EarnedTimes(ScoreInside(shares, window, a), window, blockReward);
  }

  lemma {:induction false} EachEarns(shares: seq<Share>, window: real, blockReward: real, a: Address)
    requires window > 0.0 && blockReward > 0.0
    requires forall i :: 0 <= i < |shares| ==> shares[i].score >= 0.0
    ensures Run(shares, window, blockReward).accumulated == Inside(shares, window)
    ensures CreditOf(Run(shares, window, blockReward).rewards, a)
      == Earned(ScoreInside(shares, window, a), window, blockReward)
  {
    hide Earned, CreditOf, Step, AddReward, Fair;
    if shares == [] {
      EarnedBounds(0.0, window, blockReward);
      NoCredits(a);
    } else {
      var n := |shares| - 1;
      var more := Inside(shares, window) - Inside(shares[..n], window);
      EachEarns(shares[..n], window, blockReward, a);
      PaysByScore(shares[..n], window, blockReward);
      PaidStep(Run(shares[..n], window, blockReward), shares[n], window, blockReward, a);
      hide Inside;
      if shares[n].address == a {
        EarnedAdds(ScoreInside(shares[..n], window, a), more, window, blockReward);
      }
    }
  }

  lemma NoCredits(a: Address)
    ensures CreditOf([], a) == 0.0
  {
  }

  lemma EarnedTimes(score: real, window: real, blockReward: real)
    requires window > 0.0
    ensures Earned(score, window, blockReward) * window == blockReward * score
  {
  }

  lemma PaidStep(s: State, share: Share, window: real, blockReward: real, a: Address)
    requires window > 0.0 && blockReward > 0.0 && share.score >= 0.0 && Fair(s, window, blockReward)
    ensures
      var t := Step(s, share, window, blockReward);
      var inside := if s.accumulated + share.score >= window then window else s.accumulated + share.score;
      && t.accumulated == inside
      && CreditOf(t.rewards, a) == CreditOf(s.rewards, a)
           + (if share.address == a then Earned(inside - s.accumulated, window, blockReward) else 0.0)
  {
    hide Earned, CreditOf, AddReward, Proper, SumOf;
    FairStep(s, share, window, blockReward);
    EarnedBounds(0.0, window, blockReward);
    if !s.done {
      var done := s.accumulated + share.score >= window;
      var score := if done then window - s.accumulated else share.score;
      var reward := Earned(score, window, blockReward);
      AddRewardTo(s.rewards, share.address, reward, a);
      ScoreEarns(score, window, blockReward);
    }
  }

  lemma NoRewards()
    ensures SumOf([]) == 0.0 && Proper([])
  {
  }

  lemma NothingLeft(score: real, window: real, blockReward: real)
    requires window > 0.0 && blockReward <= 0.0 && 0.0 <= score < window
    ensures blockReward - Earned(score, window, blockReward) <= 0.0
  {
    var q := blockReward / window;
    assert q <= 0.0 && window * q == blockReward && score * blockReward / window == score * q;
    assert blockReward - score * q == (window - score) * q;
  }

  /** With nothing to distribute the exception is thrown, and the block's transaction rolled back, unless
      there is no share or the first one fills the window. */
  lemma {:induction false} NothingToDistributeThrows(shares: seq<Share>, window: real, blockReward: real)
    requires window > 0.0 && blockReward <= 0.0
    requires forall i :: 0 <= i < |shares| ==> shares[i].score >= 0.0
    ensures Run(shares, window, blockReward).threw <==> shares != [] && shares[0].score < window
  {
    if shares != [] {
      hide Run, Earned;
      NoShares(window, blockReward);
      RunOneMore([], shares[0], window, blockReward);
      assert [] + [shares[0]] == [shares[0]] && [shares[0]] + shares[1..] == shares;
      if shares[0].score < window {
        NothingLeft(shares[0].score, window, blockReward);
      }
      RunStops([shares[0]], shares[1..], window, blockReward);
    }
  }

  lemma {:induction false} CreditsTotal(b: Block, credits: seq<(Address, real)>)
    ensures TotalOf(SchemeChanges(b, credits)) == SumOf(credits)
  {
    if credits != [] {
      var c := Change(credits[0].0, credits[0].1, Reward(b.id));
      CreditsTotal(b, credits[1..]);
      assert SchemeChanges(b, credits) == [c] + SchemeChanges(b, credits[1..]);
      TotalOfOne(c);
      TotalOfAppend([c], SchemeChanges(b, credits[1..]));
    }
  }

  /** A filled window distributes a block's whole reward: recipients, the pool's own share and the miners together. */
  lemma FilledWindowPaysAll(pool: Pool, b: Block, shares: seq<Share>, window: real)
    requires window > 0.0 && Remainder(pool, b) > 0.0
    requires forall i :: 0 <= i < |shares| ==> shares[i].score >= 0.0
    requires Run(shares, window, Remainder(pool, b)).done
    ensures TotalOf(Distribution(pool, b, Run(shares, window, Remainder(pool, b)).rewards))
      + OwnShare(pool, b.reward, pool.recipients) == b.reward
  {
    hide Run, SumOf, Remainder, SchemeChanges, RecipientChanges, OwnShare, Fair;
    var credits := Run(shares, window, Remainder(pool, b)).rewards;
    PaysByScore(shares, window, Remainder(pool, b));
    CreditsTotal(b, credits);
    TotalOfAppend(RecipientChanges(pool, b, pool.recipients), SchemeChanges(b, credits));
    RewardIsConserved(pool, b);
  }

  // ----- over runs -----

  /** The scheme: a block's rewards from the shares that are read for it. */
  function PplnsScheme(window: real, shares: Block -> seq<Share>): Scheme
    requires window > 0.0
  {
    (b: Block, rest: real) =>
      var s := Run(shares(b), window, rest);
      if s.threw then Failed else Done(s.rewards)
  }

  /** Never more than the rest, and nothing when there is none. */
  function WithinRest(): Law {
    (rest: real, total: real) => 0.0 <= total && total <= (if rest > 0.0 then rest else 0.0)
  }

  /** With nothing to distribute there are no rewards. */
  lemma {:induction false} NoRewardFromNothing(shares: seq<Share>, window: real, blockReward: real)
    requires window > 0.0 && blockReward <= 0.0
    requires forall i :: 0 <= i < |shares| ==> shares[i].score >= 0.0
    ensures Run(shares, window, blockReward).rewards == [] && Run(shares, window, blockReward).accumulated <= window
  {
    hide Step;
    if shares != [] {
      var n := |shares| - 1;
      NoRewardFromNothing(shares[..n], window, blockReward);
      StepFromNothing(Run(shares[..n], window, blockReward), shares[n], window, blockReward);
    }
  }

  lemma StepFromNothing(s: State, share: Share, window: real, blockReward: real)
    requires window > 0.0 && blockReward <= 0.0 && share.score >= 0.0
    requires s.rewards == [] && s.accumulated <= window
    ensures
      var t := Step(s, share, window, blockReward);
      t.rewards == [] && t.accumulated <= window
  {
    hide Earned;
    var score := if s.accumulated + share.score >= window then window - s.accumulated else share.score;
    NotPositive(score, window, blockReward);
  }

  lemma NotPositive(score: real, window: real, blockReward: real)
    requires window > 0.0 && blockReward <= 0.0 && score >= 0.0
    ensures Earned(score, window, blockReward) <= 0.0
  {
    assert score * blockReward <= 0.0;
  }

  ghost predicate NoNegativeScores(shares: Block -> seq<Share>) {
    forall b: Block, i :: 0 <= i < |shares(b)| ==> shares(b)[i].score >= 0.0
  }

  lemma {:induction false} SumNotNegative(rewards: seq<(Address, real)>)
    requires forall i :: 0 <= i < |rewards| ==> rewards[i].1 > 0.0
    ensures SumOf(rewards) >= 0.0
  {
    if rewards != [] {
      SumNotNegative(rewards[1..]);
    }
  }

  lemma PplnsKeeps(pool: Pool, window: real, shares: Block -> seq<Share>)
    requires window > 0.0 && NoNegativeScores(shares)
    ensures Keeps(pool, PplnsScheme(window, shares), WithinRest())
  {
    hide Run, Remainder, SchemeChanges, Earned;
    var scheme := PplnsScheme(window, shares);
    forall b: Block | scheme(b, Remainder(pool, b)).Done?
      ensures WithinRest()(Remainder(pool, b), TotalOf(SchemeChanges(b, scheme(b, Remainder(pool, b)).value)))
    {
      var rest := Remainder(pool, b);
      var rewards := Run(shares(b), window, rest).rewards;
      CreditsTotal(b, rewards);
      if rest > 0.0 {
        PaysByScore(shares(b), window, rest);
        SumNotNegative(rewards);
      } else {
        NoRewardFromNothing(shares(b), window, rest);
      }
    }
  }

  /** Transactions use PPLNS, with any window and any shares. */
  ghost predicate PaysByPplns(e: Event) {
    e.Transact? ==> exists window: real, shares: Block -> seq<Share> ::
      window > 0.0 && NoNegativeScores(shares) && e.scheme == PplnsScheme(window, shares)
  }

  /** In every run with PPLNS, whatever the shares and the failures, a confirmed block pays at most its reward
      (recipients, miners and the pool's own share together) if and only if the recipients' percentages leave
      something or nothing, but not less. */
  lemma PplnsNeverOverpays(pool: Pool, w: World, es: seq<Event>, id: nat)
    requires Sound(pool, w, WithinRest()) && forall i :: 0 <= i < |es| ==> PaysByPplns(es[i])
    requires IsConfirmed(RewardRuns.Run(pool, w, es).store, id)
    ensures
      var t := RewardRuns.Run(pool, w, es).store;
      var b := t.blocks[id];
      TotalOf(FromBlock(t.changes, id)) + OwnShare(pool, b.reward, pool.recipients) <= b.reward
      <==> Remainder(pool, b) >= 0.0
  {
    hide RewardRuns.Run, Remainder, FromBlock, TotalOf, OwnShare, Sound, Keeps;
    forall i | 0 <= i < |es|
      ensures EventKeeps(pool, es[i], WithinRest())
    {
      assert PaysByPplns(es[i]);
      if es[i].Transact? {
        var window: real, shares: Block -> seq<Share> :|
          window > 0.0 && NoNegativeScores(shares) && es[i].scheme == PplnsScheme(window, shares);
        PplnsKeeps(pool, window, shares);
      }
    }
    var total := ConfirmedPays(pool, w, es, id, WithinRest());
  }
}
