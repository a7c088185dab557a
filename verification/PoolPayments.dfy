/** One round of payment processing for a pool: PayoutManager.ProcessPoolsAsync, updating the balances
    and paying out what reaches the minimum. */
module PoolPayments {
  import opened Ledger
  import opened BlockClassification
  import opened BlockOrder
  import opened BlockRewards
  import opened RewardRuns
  import opened Payouts

  /** The rows GetPoolBalancesOverThreshold selects, in any order: of every coin. */
  ghost predicate Selection(s: Store, minimum: real, bs: seq<Balance>) {
    && (forall i, j :: 0 <= i < j < |bs| ==> (bs[i].address, bs[i].coin) != (bs[j].address, bs[j].coin))
    && (forall i :: 0 <= i < |bs| ==>
          && Selected(s, minimum, Account(bs[i].address, bs[i].coin))
          && bs[i].amount == s.balances[Account(bs[i].address, bs[i].coin)])
    && (forall k :: Selected(s, minimum, k) ==> Balance(k.address, k.coin, s.balances[k]) in bs)
  }

  predicate Selected(s: Store, minimum: real, k: Account) {
    k in s.balances && s.balances[k] >= minimum
  }

  // ----- when the dictionary of amounts throws -----

  /** An address has two positive balances that reach the minimum, under different coins. */
  ghost predicate TwoCoins(s: Store, minimum: real) {
    exists k, l :: Pays(s, minimum, k) && Pays(s, minimum, l) && k != l && k.address == l.address
  }

  predicate Pays(s: Store, minimum: real, k: Account) {
    Selected(s, minimum, k) && s.balances[k] > 0.0
  }

  /** The payout throws before anything is sent exactly when an address has two such balances: the table keys
      balances by address and coin, and the query takes them all. */
  lemma DictionaryThrowsWhen(s: Store, minimum: real, bs: seq<Balance>)
    requires Selection(s, minimum, bs)
    ensures PaysTwice(bs) <==> TwoCoins(s, minimum)
  {
    if PaysTwice(bs) {
      var i, j :| 0 <= i < j < |bs| && bs[i].amount > 0.0 && bs[j].amount > 0.0 && bs[i].address == bs[j].address;
      assert (bs[i].address, bs[i].coin) != (bs[j].address, bs[j].coin);
      assert Pays(s, minimum, Account(bs[i].address, bs[i].coin));
      assert Pays(s, minimum, Account(bs[j].address, bs[j].coin));
    }
    if TwoCoins(s, minimum) {
      var k, l :| Pays(s, minimum, k) && Pays(s, minimum, l) && k != l && k.address == l.address;
      var i :| 0 <= i < |bs| && bs[i] == Balance(k.address, k.coin, s.balances[k]);
      var j :| 0 <= j < |bs| && bs[j] == Balance(l.address, l.coin, s.balances[l]);
      TwoRowsPay(bs, i, j);
    }
  }

  lemma TwoRowsPay(bs: seq<Balance>, i: nat, j: nat)
    requires i < |bs| && j < |bs| && i != j
    requires bs[i].amount > 0.0 && bs[j].amount > 0.0 && bs[i].address == bs[j].address
    ensures PaysTwice(bs)
  {
    if j < i {
      TwoRowsPay(bs, j, i);
    }
  }

  /** Where all balances are in the pool's coin, it never throws. */
  lemma OneCoinPaysOnce(s: Store, minimum: real)
    requires OneCoin(s)
    ensures !TwoCoins(s, minimum)
  {
  }

  // ----- what a payout leaves -----

  /** What the rows of an address under other coins add up to. */
  function Foreign(bs: seq<Balance>, coin: Coin, a: Address): real {
    if bs == [] then 0.0
    else
      var b := bs[|bs| - 1];
      Foreign(bs[..|bs| - 1], coin, a) + (if b.address == a && b.coin != coin then b.amount else 0.0)
  }

  lemma {:induction false} OwedSplits(bs: seq<Balance>, coin: Coin, a: Address, k: nat)
    requires forall i, j :: 0 <= i < j < |bs| ==> (bs[i].address, bs[i].coin) != (bs[j].address, bs[j].coin)
    requires k < |bs| && bs[k].address == a && bs[k].coin == coin
    ensures Owed(bs, a) == bs[k].amount + Foreign(bs, coin, a)
  {
    var n := |bs| - 1;
    if k < n {
      assert (bs[k].address, bs[k].coin) != (bs[n].address, bs[n].coin);
      OwedSplits(bs[..n], coin, a, k);
    } else {
      forall i | 0 <= i < n ensures !(bs[i].address == a && bs[i].coin == coin) {
        assert (bs[i].address, bs[i].coin) != (bs[n].address, bs[n].coin);
      }
      OwedElsewhere(bs[..n], coin, a);
    }
  }

  lemma {:induction false} OwedElsewhere(bs: seq<Balance>, coin: Coin, a: Address)
    requires forall i :: 0 <= i < |bs| ==> !(bs[i].address == a && bs[i].coin == coin)
    ensures Owed(bs, a) == Foreign(bs, coin, a)
  {
    if bs != [] {
      OwedElsewhere(bs[..|bs| - 1], coin, a);
    }
  }

  lemma {:induction false} NothingForeign(bs: seq<Balance>, coin: Coin, a: Address)
    requires forall i :: 0 <= i < |bs| ==> bs[i].coin == coin
    ensures Foreign(bs, coin, a) == 0.0
  {
    if bs != [] {
      NothingForeign(bs[..|bs| - 1], coin, a);
    }
  }

  /** Reading and debiting without credits in between: a balance in the pool's coin that reached the minimum is
      zero afterwards and any other is what it was, less what was paid out of the address's balances in other coins;
      those are not debited at all. */
  lemma PaidBalances(s: Store, minimum: real, bs: seq<Balance>, txId: string, recipients: set<Address>, a: Address)
    requires Selection(s, minimum, bs)
    ensures BalanceOf(Debited(s, txId, recipients, bs), a)
      == (if Selected(s, minimum, Account(a, s.coin)) then 0.0 else BalanceOf(s, a)) - Foreign(bs, s.coin, a)
    ensures forall k: Account :: k.coin != s.coin ==>
      var t := Debited(s, txId, recipients, bs);
      (k in t.balances <==> k in s.balances) && (k in s.balances ==> t.balances[k] == s.balances[k])
  {
    hide Owed, AddAmounts, PaymentsFor, Foreign;
    DebitedOnce(s, txId, recipients, bs, a);
    if Selected(s, minimum, Account(a, s.coin)) {
      var k :| 0 <= k < |bs| && bs[k] == Balance(a, s.coin, s.balances[Account(a, s.coin)]);
      OwedSplits(bs, s.coin, a, k);
    } else {
      OwedElsewhere(bs, s.coin, a);
    }
    forall k: Account | k.coin != s.coin
      ensures
        var t := Debited(s, txId, recipients, bs);
        (k in t.balances <==> k in s.balances) && (k in s.balances ==> t.balances[k] == s.balances[k])
    {
      OtherCoinsUntouched(s.(payments := s.payments + PaymentsFor(txId, recipients, bs)), Resets(bs), k);
    }
  }

  /** With one coin only: every balance that reached the minimum is zero and every other one is what it was. */
  lemma PaidBalancesAreZero(s: Store, minimum: real, bs: seq<Balance>, txId: string, recipients: set<Address>,
                            a: Address)
    requires Selection(s, minimum, bs) && OneCoin(s)
    ensures BalanceOf(Debited(s, txId, recipients, bs), a)
      == if Selected(s, minimum, Account(a, s.coin)) then 0.0 else BalanceOf(s, a)
  {
    hide Debited, Foreign;
    PaidBalances(s, minimum, bs, txId, recipients, a);
    forall i | 0 <= i < |bs| ensures bs[i].coin == s.coin {
      assert Selected(s, minimum, Account(bs[i].address, bs[i].coin));
    }
    NothingForeign(bs, s.coin, a);
  }

  // ----- the round -----

  function Recipients(pool: Pool): set<Address> {
    set r <- pool.recipients :: r.address
  }

  /** What a round adds to the run: the debits, if the payout was made. */
  ghost function PayoutEvents(pool: Pool, bs: seq<Balance>, r: Result): seq<Event> {
    if r.Paid? then [Debit(Resets(bs), PaymentsFor(r.txId, Recipients(pool), bs))] else []
  }

  lemma DebitedIsEvent(pool: Pool, w: World, es: seq<Event>, s: Store, bs: seq<Balance>, txId: string)
    requires Run(pool, w, es) == World(s, [])
    ensures Run(pool, w, es + PayoutEvents(pool, bs, Paid(txId))) == World(Debited(s, txId, Recipients(pool), bs), [])
  {
    hide Run, AddAmounts, Recipients, PaymentsFor;
    RunOneMore(pool, w, es, Debit(Resets(bs), PaymentsFor(txId, Recipients(pool), bs)));
  }

  /** PayoutPoolBalancesAsync. */
  method PayoutPoolBalances(db: Database, wallet: Wallet, pool: Pool, minimum: real, rows: Store -> seq<Balance>,
                            password: string, attempts: nat -> Attempt) returns (r: Result)
    requires Selection(db.store, minimum, rows(db.store))
    modifies db, wallet
    ensures r.Duplicate? <==> TwoCoins(old(db.store), minimum)
    ensures r.Duplicate? ==> wallet.calls == old(wallet.calls)
    ensures db.store ==
      if r.Paid? then Debited(old(db.store), r.txId, Recipients(pool), rows(old(db.store))) else old(db.store)
    ensures |wallet.calls| >= |old(wallet.calls)| && SuccessfulTransfers(wallet.calls[|old(wallet.calls)|..]) <= 1
    ensures r.Paid? ==> SuccessfulTransfers(wallet.calls[|old(wallet.calls)|..]) == 1
  {
    hide Debited, TransferCalls, Persists, Amounts, PaysTwice, Selection, Recipients, Ends, TwoCoins;
    var bs := rows(db.store);
    DictionaryThrowsWhen(db.store, minimum, bs);
    if bs == [] {
      NoRows(db.store, minimum);
      assert wallet.calls[|old(wallet.calls)|..] == [];
      return NothingToPay;
    }
    ghost var before := wallet.calls;
    r := Payout(db, wallet, Recipients(pool), password, bs, attempts);
    PayoutTransfers(before, wallet.calls, bs, password, wallet.replies, Recipients(pool), attempts);
  }

  lemma NoRows(s: Store, minimum: real)
    requires Selection(s, minimum, [])
    ensures !TwoCoins(s, minimum)
  {
    DictionaryThrowsWhen(s, minimum, []);
  }

  /** The transfers of a payout among all calls to the wallet. */
  lemma PayoutTransfers(before: seq<(Call, Reply)>, after: seq<(Call, Reply)>, bs: seq<Balance>, password: string,
                        replies: nat -> Reply, recipients: set<Address>, attempts: nat -> Attempt)
    requires after == before
      + (if PaysTwice(bs) || Amounts(bs) == [] then []
         else TransferCalls(Amounts(bs), password, replies, |before|).0)
    ensures var r := Ends(bs, password, replies, |before|, recipients, attempts);
      && (r.Duplicate? <==> PaysTwice(bs)) && (r.Duplicate? ==> after == before)
      && (r.Paid? ==> SuccessfulTransfers(after[|before|..]) == 1)
      && SuccessfulTransfers(after[|before|..]) <= 1
  {
    hide TransferCalls, Persists, Amounts, PaysTwice;
    if PaysTwice(bs) || Amounts(bs) == [] {
      assert after[|before|..] == [];
    } else {
      assert after[|before|..] == TransferCalls(Amounts(bs), password, replies, |before|).0;
      OneSuccessfulTransfer(Amounts(bs), password, replies, |before|);
      DebitedIffSent(bs, password, replies, |before|, recipients, attempts);
    }
  }

  /** A round is a run of the machine, so everything proved of runs holds of rounds. The payout is only
      reached when the balances were updated without an exception. */
  method ProcessPool(db: Database, wallet: Wallet, pool: Pool, pending: seq<Block>, batches: seq<Outcome<seq<Answer>>>,
                     scheme: Scheme, failAts: seq<nat>, minimum: real, rows: Store -> seq<Balance>,
                     password: string, attempts: nat -> Attempt)
    returns (r: Result, ghost bs: seq<Balance>)
    requires Snapshot(db.store, pending) && |batches| == PageCount(|pending|) && |pending| <= |failAts|
    requires forall s :: Selection(s, minimum, rows(s))
    modifies db, wallet
    ensures World(db.store, []) ==
      Run(pool, World(old(db.store), []),
          ([Cycle(pending, batches)] + Transactions(scheme, failAts)) + PayoutEvents(pool, bs, r))
    ensures |wallet.calls| >= |old(wallet.calls)| && SuccessfulTransfers(wallet.calls[|old(wallet.calls)|..]) <= 1
    ensures OneCoin(old(db.store)) ==> !r.Duplicate? && OneCoin(db.store)
  {
    hide OneCoin, TwoCoins;
    hide Run, Snapshot, ClassifyPages, Written, Debited;
    ghost var es := [Cycle(pending, batches)] + Transactions(scheme, failAts);
    ghost var w := World(db.store, []);
    var ok := UpdatePoolBalances(db, pool, pending, batches, scheme, failAts);
    if !ok {
      assert es + PayoutEvents(pool, [], Exception) == es;
      if OneCoin(w.store) {
        AlwaysOneCoin(pool, w, es);
      }
      assert wallet.calls[|old(wallet.calls)|..] == [];
      return Exception, [];
    }
    ghost var s := db.store;
    if OneCoin(w.store) {
      AlwaysOneCoin(pool, w, es);
      OneCoinPaysOnce(s, minimum);
    }
    r := PayoutPoolBalances(db, wallet, pool, minimum, rows, password, attempts);
    bs := rows(s);
    if r.Paid? {
      DebitedIsEvent(pool, w, es, s, bs, r.txId);
    } else {
      assert es + PayoutEvents(pool, bs, r) == es;
    }
    if OneCoin(w.store) {
      AlwaysOneCoin(pool, w, es + PayoutEvents(pool, bs, r));
    }
  }
}
