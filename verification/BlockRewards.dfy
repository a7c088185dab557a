/** Distributing the rewards of classified blocks: PayoutManager.UpdatePoolBalancesAsync
    and BitcoinPayoutHandler.UpdateBlockRewardBalancesAsync. */
module BlockRewards {
  import opened Ledger

  // ----- reward recipients -----

  datatype Recipient = Recipient(address: Address, percentage: real)

  /** The pool: its own address and the configured recipients. */
  datatype Pool = Pool(address: Address, recipients: seq<Recipient>)

  function Share(reward: real, r: Recipient): real {
    reward * (r.percentage / 100.0)
  }

  /** The shares of the recipients with a positive percentage. */
  function RecipientTotal(reward: real, rs: seq<Recipient>): real {
    if rs == [] then 0.0
    else RecipientTotal(reward, rs[..|rs| - 1])
         + (if rs[|rs| - 1].percentage > 0.0 then Share(reward, rs[|rs| - 1]) else 0.0)
  }

  /** The entries they get: none for the pool's own address. */
  function RecipientChanges(pool: Pool, b: Block, rs: seq<Recipient>): seq<Change> {
    if rs == [] then []
    else
      var r := rs[|rs| - 1];
      RecipientChanges(pool, b, rs[..|rs| - 1])
      + (if r.percentage > 0.0 && r.address != pool.address
         then [Change(r.address, Share(b.reward, r), Reward(b.id))] else [])
  }

  /** What the payout scheme credits for a block and the rest of its reward, or that it throws. */
  type Scheme = (Block, real) -> Outcome<seq<(Address, real)>>

  function SchemeChanges(b: Block, credits: seq<(Address, real)>): (cs: seq<Change>)
    ensures |cs| == |credits|
  {
    seq(|credits|, i requires 0 <= i < |credits| => Change(credits[i].0, credits[i].1, Reward(b.id)))
  }

  /** Every entry of a confirmed block. */
  function Distribution(pool: Pool, b: Block, credits: seq<(Address, real)>): seq<Change> {
    RecipientChanges(pool, b, pool.recipients) + SchemeChanges(b, credits)
  }

  /** The rest that goes to the scheme. */
  function Remainder(pool: Pool, b: Block): real {
    b.reward - RecipientTotal(b.reward, pool.recipients)
  }

  // ----- one transaction -----

  /** The store after a committed transaction for one classified block; Failed when the scheme throws. */
  function Processed(s: Store, pool: Pool, scheme: Scheme, b: Block): Outcome<Store> {
    match b.status
    case Confirmed =>
      (match scheme(b, Remainder(pool, b))
       case Failed => Failed
       case Done(credits) => Done(UpdateBlock(AddAmounts(s, Distribution(pool, b, credits)), b)))
    case Orphaned => Done(UpdateBlock(s, b))
    case Pending => Done(UpdateBlock(s, b))
  }

  /** UpdateBlockRewardBalancesAsync: credits the recipients and returns what is left. The call throws
      at operation number `failAt`, if there are that many. */
  method UpdateBlockRewardBalances(db: Database, pool: Pool, b: Block, failAt: nat) returns (r: Outcome<real>, ops: nat)
    modifies db
    ensures ops <= failAt
    ensures r.Done? ==>
      && r.value == Remainder(pool, b)
      && db.store == AddAmounts(old(db.store), RecipientChanges(pool, b, pool.recipients))
      && ops == |RecipientChanges(pool, b, pool.recipients)|
    ensures r.Failed? ==> ops == failAt && failAt < |RecipientChanges(pool, b, pool.recipients)|
  {
    hide AddAmounts, RecipientChanges, RecipientTotal, Share, AddAmount;
    var blockRewardRemaining := b.reward;
    ops := 0;
    var i := 0;
    RecipientsBegin(old(db.store), pool, b);
    while i < |pool.recipients|
      invariant 0 <= i <= |pool.recipients| && ops <= failAt
      invariant blockRewardRemaining == b.reward - RecipientTotal(b.reward, pool.recipients[..i])
      invariant db.store == AddAmounts(old(db.store), RecipientChanges(pool, b, pool.recipients[..i]))
      invariant ops == |RecipientChanges(pool, b, pool.recipients[..i])|
    {
      var recipient := pool.recipients[i];
      OneRecipient(old(db.store), pool, b, i);
      if recipient.percentage > 0.0 {
        var amount := Share(b.reward, recipient);
        blockRewardRemaining := blockRewardRemaining - amount;
        if recipient.address != pool.address {
          if ops == failAt {
            MoreRecipients(pool, b, i + 1);
            return Failed, ops;
          }
          db.Insert(Change(recipient.address, amount, Reward(b.id)));
          ops := ops + 1;
        }
      }
      i := i + 1;
    }
    assert pool.recipients[..i] == pool.recipients;
    r := Done(blockRewardRemaining);
  }

  lemma RecipientsBegin(s: Store, pool: Pool, b: Block)
    ensures RecipientTotal(b.reward, pool.recipients[..0]) == 0.0
    ensures RecipientChanges(pool, b, pool.recipients[..0]) == [] && AddAmounts(s, []) == s
  {
  }

  /** How the totals, the entries and the store follow one recipient more. */
  lemma OneRecipient(s: Store, pool: Pool, b: Block, i: nat)
    requires i < |pool.recipients|
    ensures var r := pool.recipients[i];
      var before := RecipientChanges(pool, b, pool.recipients[..i]);
      var after := RecipientChanges(pool, b, pool.recipients[..i + 1]);
      && RecipientTotal(b.reward, pool.recipients[..i + 1])
         == RecipientTotal(b.reward, pool.recipients[..i]) + (if r.percentage > 0.0 then Share(b.reward, r) else 0.0)
      && (if r.percentage > 0.0 && r.address != pool.address then
            var c := Change(r.address, Share(b.reward, r), Reward(b.id));
            |after| == |before| + 1 && AddAmounts(s, after) == AddAmount(AddAmounts(s, before), c)
          else after == before)
  {
    hide AddAmounts, Share, AddAmount;
    var r := pool.recipients[i];
    assert pool.recipients[..i + 1][..i] == pool.recipients[..i];
    var before := RecipientChanges(pool, b, pool.recipients[..i]);
    if r.percentage > 0.0 && r.address != pool.address {
      AddOneMore(s, before, Change(r.address, Share(b.reward, r), Reward(b.id)));
    }
  }

  lemma {:induction false} MoreRecipients(pool: Pool, b: Block, i: nat)
    requires i <= |pool.recipients|
    ensures |RecipientChanges(pool, b, pool.recipients[..i])| <= |RecipientChanges(pool, b, pool.recipients)|
    decreases |pool.recipients| - i
  {
    if i < |pool.recipients| {
      assert pool.recipients[..i + 1][..i] == pool.recipients[..i];
      MoreRecipients(pool, b, i + 1);
    } else {
      assert pool.recipients[..i] == pool.recipients;
    }
  }

  lemma {:induction false} AddAmountsJoin(s: Store, cs: seq<Change>, ds: seq<Change>)
    ensures AddAmounts(s, cs + ds) == AddAmounts(AddAmounts(s, cs), ds)
  {
    if ds == [] {
      assert cs + ds == cs;
    } else {
      var n := |ds| - 1;
      AddAmountsJoin(s, cs, ds[..n]);
      AddOneMore(s, cs + ds[..n], ds[n]);
      assert cs + ds == cs + ds[..n] + [ds[n]];
    }
  }

  // ----- conservation -----

  /** What the recipients at the pool's own address would get: it stays in the pool wallet. */
  function OwnShare(pool: Pool, reward: real, rs: seq<Recipient>): real {
    if rs == [] then 0.0
    else
      var r := rs[|rs| - 1];
      OwnShare(pool, reward, rs[..|rs| - 1])
      + (if r.percentage > 0.0 && r.address == pool.address then Share(reward, r) else 0.0)
  }

  /** The sum of the positive percentages. */
  function Percent(rs: seq<Recipient>): real {
    if rs == [] then 0.0
    else Percent(rs[..|rs| - 1]) + (if rs[|rs| - 1].percentage > 0.0 then rs[|rs| - 1].percentage else 0.0)
  }

  lemma {:induction false} TotalOfAppend(cs: seq<Change>, ds: seq<Change>)
    ensures TotalOf(cs + ds) == TotalOf(cs) + TotalOf(ds)
  {
    if ds == [] {
      assert cs + ds == cs;
    } else {
      var n := |ds| - 1;
      assert (cs + ds)[..|cs + ds| - 1] == cs + ds[..n];
      TotalOfAppend(cs, ds[..n]);
    }
  }

  lemma TotalOfOne(c: Change)
    ensures TotalOf([c]) == c.amount
  {
    assert [c][..0] == [];
    assert TotalOf([c][..0]) == 0.0;
  }

  lemma {:induction false} RecipientsAddUp(pool: Pool, b: Block, rs: seq<Recipient>)
    ensures TotalOf(RecipientChanges(pool, b, rs)) + OwnShare(pool, b.reward, rs) == RecipientTotal(b.reward, rs)
  {
    hide Share;
    if rs != [] {
      var n := |rs| - 1;
      var r := rs[n];
      RecipientsAddUp(pool, b, rs[..n]);
      var c := Change(r.address, Share(b.reward, r), Reward(b.id));
      TotalOfOne(c);
      TotalOfAppend(RecipientChanges(pool, b, rs[..n]), [c]);
      TotalOfAppend(RecipientChanges(pool, b, rs[..n]), []);
    }
  }

  /** Recipients' entries, the pool's own share and the rest for the scheme add up to the reward. */
  lemma RewardIsConserved(pool: Pool, b: Block)
    ensures TotalOf(RecipientChanges(pool, b, pool.recipients)) + OwnShare(pool, b.reward, pool.recipients)
            + Remainder(pool, b) == b.reward
  {
    RecipientsAddUp(pool, b, pool.recipients);
  }

  /** The positive percentages of one address. */
  function PercentOf(rs: seq<Recipient>, a: Address): real {
    if rs == [] then 0.0
    else
      var r := rs[|rs| - 1];
      PercentOf(rs[..|rs| - 1], a) + (if r.address == a && r.percentage > 0.0 then r.percentage else 0.0)
  }

  /** Each recipient gets its own percentage of the reward; the pool's own address gets nothing. */
  lemma {:induction false} RecipientGets(pool: Pool, b: Block, rs: seq<Recipient>, a: Address)
    ensures Journalled(RecipientChanges(pool, b, rs), a)
      == if a == pool.address then 0.0 else b.reward * PercentOf(rs, a) / 100.0
  {
    hide Journalled;
    if rs == [] {
      NothingJournalled(a);
    } else {
      var n := |rs| - 1;
      var r := rs[n];
      var before := RecipientChanges(pool, b, rs[..n]);
      RecipientGets(pool, b, rs[..n], a);
      var c := Change(r.address, Share(b.reward, r), Reward(b.id));
      JournalledOne(c, a);
      JournalledAppend(before, [c], a);
      assert before + [] == before;
      ShareAdds(b.reward, PercentOf(rs[..n], a), r);
      hide Share;
    }
  }

  lemma NothingJournalled(a: Address)
    ensures Journalled([], a) == 0.0
  {
  }

  lemma ShareAdds(reward: real, percent: real, r: Recipient)
    ensures reward * percent / 100.0 + Share(reward, r) == reward * (percent + r.percentage) / 100.0
  {
  }

  /** Each miner gets what the scheme credits to its address. */
  lemma {:induction false} MinerGets(b: Block, credits: seq<(Address, real)>, a: Address)
    ensures Journalled(SchemeChanges(b, credits), a) == CreditOf(credits, a)
  {
    hide Journalled;
    if credits == [] {
      NothingJournalled(a);
    } else {
      var c := Change(credits[0].0, credits[0].1, Reward(b.id));
      MinerGets(b, credits[1..], a);
      assert SchemeChanges(b, credits) == [c] + SchemeChanges(b, credits[1..]);
      JournalledOne(c, a);
      JournalledAppend([c], SchemeChanges(b, credits[1..]), a);
    }
  }

  /** Every balance after the transaction of a block: only the committed one of a confirmed block changes balances,
      by the recipient's percentage and the scheme's credit for the address. */
  lemma CommittedBalances(pool: Pool, s: Store, scheme: Scheme, b: Block, failAt: nat, a: Address)
    ensures
      var (t, ok) := Transacted(s, pool, scheme, b, failAt);
      var credits := scheme(b, Remainder(pool, b));
      BalanceOf(t, a) == BalanceOf(s, a)
        + (if ok && b.status == Confirmed && credits.Done?
           then (if a == pool.address then 0.0 else b.reward * PercentOf(pool.recipients, a) / 100.0)
                + CreditOf(credits.value, a)
           else 0.0)
  {
    hide Remainder, RecipientChanges, SchemeChanges, AddAmounts, Journalled, PercentOf;
    var credits := scheme(b, Remainder(pool, b));
    if b.status == Confirmed && credits.Done? {
      var d := Distribution(pool, b, credits.value);
      BalanceAfterAdds(s, d, a);
      JournalledAppend(RecipientChanges(pool, b, pool.recipients), SchemeChanges(b, credits.value), a);
      RecipientGets(pool, b, pool.recipients, a);
      MinerGets(b, credits.value, a);
    }
  }

  lemma {:induction false} TotalByPercent(reward: real, rs: seq<Recipient>)
    ensures RecipientTotal(reward, rs) == reward * (Percent(rs) / 100.0)
  {
    if rs != [] {
      TotalByPercent(reward, rs[..|rs| - 1]);
    }
  }

  lemma TimesOneMinus(reward: real, p: real)
    requires reward > 0.0
    ensures reward - reward * (p / 100.0) >= 0.0 <==> p <= 100.0
  {
    var q := p / 100.0;
    assert reward - reward * q == reward * (1.0 - q);
    if q > 1.0 {
      assert reward * (1.0 - q) < 0.0;
    }
  }

  /** The scheme is never handed a negative rest exactly when the percentages stay within 100. */
  lemma RemainderIsCovered(pool: Pool, b: Block)
    requires b.reward > 0.0
    ensures Remainder(pool, b) >= 0.0 <==> Percent(pool.recipients) <= 100.0
  {
    TotalByPercent(b.reward, pool.recipients);
    TimesOneMinus(b.reward, Percent(pool.recipients));
  }

  lemma {:induction false} RecipientEntriesNameTheBlock(pool: Pool, b: Block, rs: seq<Recipient>)
    ensures forall i :: 0 <= i < |RecipientChanges(pool, b, rs)| ==>
      RecipientChanges(pool, b, rs)[i].cause == Reward(b.id) && RecipientChanges(pool, b, rs)[i].address != pool.address
  {
    if rs != [] {
      RecipientEntriesNameTheBlock(pool, b, rs[..|rs| - 1]);
    }
  }

  /** Every entry of a distribution names its block. */
  lemma EntriesNameTheBlock(pool: Pool, b: Block, credits: seq<(Address, real)>)
    ensures
      var d := Distribution(pool, b, credits);
      forall i :: 0 <= i < |d| ==> d[i].cause == Reward(b.id)
  {
    RecipientEntriesNameTheBlock(pool, b, pool.recipients);
  }

  // ----- the transaction of one block -----

  /** Crediting what the scheme computed, entry by entry. */
  method CreditScheme(db: Database, b: Block, credits: seq<(Address, real)>, failAt: nat) returns (ok: bool, ops: nat)
    modifies db
    ensures ok == (|credits| <= failAt)
    ensures ok ==> ops == |credits| && db.store == AddAmounts(old(db.store), SchemeChanges(b, credits))
  {
    hide AddAmounts, AddAmount;
    ops := 0;
    ghost var all := SchemeChanges(b, credits);
    AddNothing(db.store);
    assert all[..0] == [];
    while ops < |credits|
      invariant 0 <= ops <= |credits| && ops <= failAt
      invariant db.store == AddAmounts(old(db.store), all[..ops])
    {
      if ops == failAt {
        return false, ops;
      }
      AddOneMore(old(db.store), all[..ops], all[ops]);
      assert all[..ops + 1] == all[..ops] + [all[ops]];
      db.Insert(Change(credits[ops].0, credits[ops].1, Reward(b.id)));
      ops := ops + 1;
    }
    assert all[..ops] == all;
    ok := true;
  }

  lemma AddNothing(s: Store)
    ensures AddAmounts(s, []) == s
  {
  }

  /** The database operations of the transaction: the entries, the block's row and the commit. */
  function Operations(pool: Pool, scheme: Scheme, b: Block): nat {
    if b.status == Confirmed && scheme(b, Remainder(pool, b)).Done?
    then |Distribution(pool, b, scheme(b, Remainder(pool, b)).value)| + 2
    else 2
  }

  /** The outcome of the bracket: the whole effect, or none when the scheme throws or an operation does. */
  function Transacted(s: Store, pool: Pool, scheme: Scheme, b: Block, failAt: nat): (Store, bool) {
    if Processed(s, pool, scheme, b).Done? && Operations(pool, scheme, b) <= failAt
    then (Processed(s, pool, scheme, b).value, true)
    else (s, false)
  }

  /** The action of the transaction in UpdatePoolBalancesAsync; operation number `failAt` throws. */
  method BlockAction(db: Database, pool: Pool, scheme: Scheme, b: Block, failAt: nat) returns (ok: bool)
    modifies db
    ensures ok == (Processed(old(db.store), pool, scheme, b).Done? && Operations(pool, scheme, b) <= failAt)
    ensures ok ==> Done(db.store) == Processed(old(db.store), pool, scheme, b)
  {
    hide AddAmounts, AddAmount, RecipientChanges, SchemeChanges, Remainder, UpdateBlock;
    var ops: nat := 0;
    if b.status == Confirmed {
      var blockReward, recipientOps := UpdateBlockRewardBalances(db, pool, b, failAt);
      if blockReward.Failed? {
        return false;
      }
      var credits := scheme(b, blockReward.value);
      if credits.Failed? {
        return false;
      }
      var credited, creditOps := CreditScheme(db, b, credits.value, failAt - recipientOps);
      if !credited {
        return false;
      }
      AddAmountsJoin(old(db.store), RecipientChanges(pool, b, pool.recipients), SchemeChanges(b, credits.value));
      ops := recipientOps + creditOps;
    }
    if ops + 2 > failAt {
      return false;
    }
    db.store := UpdateBlock(db.store, b);
    ok := true;
  }

  /** RunTxAsync around the action for one block: commit, or roll back and throw. */
  method ProcessBlock(db: Database, pool: Pool, scheme: Scheme, b: Block, failAt: nat) returns (ok: bool)
    modifies db
    ensures (db.store, ok) == Transacted(old(db.store), pool, scheme, b, failAt)
  {
    hide Processed, Operations;
    var begin := db.store;
    ok := BlockAction(db, pool, scheme, b, failAt);
    if !ok {
      db.Rollback(begin);
    }
  }
}
