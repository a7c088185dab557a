/** Paying balances out: the amounts sent to the wallet daemon, and the debits persisted afterwards.
    PayoutHandlerBase.PersistPayments and BitcoinPayoutHandler.PayoutAsync. */
module Payouts {
  import opened Common
  import opened Ledger

  /** A row of GetPoolBalancesOverThreshold. */
  datatype Balance = Balance(address: Address, coin: Coin, amount: real)

  // ----- Math.Round(x, 8) -----

  const UNIT: real := 100000000.0

  /** The nearest integer, ties to the even one. */
  function Nearest(x: real): int {
    var f := x.Floor;
    var d := x - f as real;
    if d < 0.5 then f else if d > 0.5 then f + 1 else if f % 2 == 0 then f else f + 1
  }

  function Round8(x: real): real {
    Nearest(x * UNIT) as real / UNIT
  }

  /** No integer is nearer, and of two equally near ones the even one is taken. */
  lemma NearestIsNearest(x: real, k: int)
    ensures Abs(x - Nearest(x) as real) <= Abs(x - k as real)
    ensures Abs(x - Nearest(x) as real) == Abs(x - k as real) && k != Nearest(x) ==> Nearest(x) % 2 == 0
  {
    var f := x.Floor;
    if k <= f {
      assert x - k as real >= x - f as real;
    } else {
      assert k as real - x >= (f + 1) as real - x;
    }
  }

  lemma RoundError(x: real)
    ensures Abs(Round8(x) - x) <= 0.5 / UNIT
  {
    var y := x * UNIT;
    var n := Nearest(y);
    assert Abs(n as real - y) <= 0.5;
    assert Round8(x) - x == (n as real - y) / UNIT;
  }

  // ----- the amounts -----

  /** Two positive balances under one address, at which building the dictionary throws. */
  predicate PaysTwice(bs: seq<Balance>) {
    exists i, j :: 0 <= i < j < |bs| && bs[i].amount > 0.0 && bs[j].amount > 0.0 && bs[i].address == bs[j].address
  }

  /** The rounded positive balances. */
  function Amounts(bs: seq<Balance>): seq<(Address, real)> {
    if bs == [] then []
    else
      Amounts(bs[..|bs| - 1])
      + (if bs[|bs| - 1].amount > 0.0 then [(bs[|bs| - 1].address, Round8(bs[|bs| - 1].amount))] else [])
  }

  function TotalPositive(bs: seq<Balance>): real {
    if bs == [] then 0.0
    else TotalPositive(bs[..|bs| - 1]) + (if bs[|bs| - 1].amount > 0.0 then bs[|bs| - 1].amount else 0.0)
  }

  lemma OneMore(n: nat, e: real)
    ensures (n + 1) as real * e == n as real * e + e
  {
  }

  lemma CloseStep(sent: real, positive: real, n: nat, x: real, e: real)
    requires Abs(sent - positive) <= n as real * e && Abs(Round8(x) - x) <= e
    ensures Abs((sent + Round8(x)) - (positive + x)) <= (n + 1) as real * e
  {
    hide Round8;
    OneMore(n, e);
  }

  /** What is sent differs from the positive balances by at most half a unit of the eighth digit for each. */
  lemma {:induction false} SentIsClose(bs: seq<Balance>)
    ensures |Amounts(bs)| <= |bs|
    ensures Abs(SumOf(Amounts(bs)) - TotalPositive(bs)) <= |Amounts(bs)| as real * (0.5 / UNIT)
  {
    hide Round8, Abs, SumOf;
    if bs != [] {
      var n := |bs| - 1;
      SentIsClose(bs[..n]);
      var before := Amounts(bs[..n]);
      if bs[n].amount <= 0.0 {
        assert Amounts(bs) == before;
      } else {
        RoundError(bs[n].amount);
        SumOfAppend(before, (bs[n].address, Round8(bs[n].amount)));
        CloseStep(SumOf(before), TotalPositive(bs[..n]), |before|, bs[n].amount, 0.5 / UNIT);
      }
    } else {
      SumOfNone();
    }
  }

  lemma SumOfNone()
    ensures Abs(SumOf([]) - 0.0) <= 0.0
  {
  }

  // ----- who is sent what -----

  /** The positive balances of one address, and how many there are. */
  function PositiveOf(bs: seq<Balance>, a: Address): real {
    if bs == [] then 0.0
    else
      var b := bs[|bs| - 1];
      PositiveOf(bs[..|bs| - 1], a) + (if b.address == a && b.amount > 0.0 then b.amount else 0.0)
  }

  function CountOf(bs: seq<Balance>, a: Address): nat {
    if bs == [] then 0
    else
      var b := bs[|bs| - 1];
      CountOf(bs[..|bs| - 1], a) + (if b.address == a && b.amount > 0.0 then 1 else 0)
  }

  /** Each address is sent its own positive balances, up to half a unit of the eighth digit for each of them. */
  predicate Honest(bs: seq<Balance>, amounts: seq<(Address, real)>, a: Address) {
    Abs(CreditOf(amounts, a) - PositiveOf(bs, a)) <= CountOf(bs, a) as real * (0.5 / UNIT)
  }

  lemma {:induction false} EachIsSentItsOwn(bs: seq<Balance>, a: Address)
    ensures Honest(bs, Amounts(bs), a)
  {
    hide Round8, Abs, CreditOf;
    if bs == [] {
      NoCredit(a);
    } else {
      var n := |bs| - 1;
      var before := Amounts(bs[..n]);
      EachIsSentItsOwn(bs[..n], a);
      if bs[n].amount <= 0.0 {
        assert Amounts(bs) == before;
      } else {
        RoundError(bs[n].amount);
        CreditOfAppend(before, (bs[n].address, Round8(bs[n].amount)), a);
        CloseStep(CreditOf(before, a), PositiveOf(bs[..n], a), CountOf(bs[..n], a), bs[n].amount, 0.5 / UNIT);
      }
    }
  }

  lemma NoCredit(a: Address)
    ensures Abs(CreditOf([], a) - 0.0) <= 0.0
  {
  }

  /** The entries stand for the positive balances, one for one and in order. */
  lemma {:induction false} EntryForEachBalance(bs: seq<Balance>, i: nat) returns (j: nat)
    requires i < |bs| && bs[i].amount > 0.0
    ensures j < |Amounts(bs)| && j <= i
    ensures Amounts(bs)[j].0 == bs[i].address && Abs(Amounts(bs)[j].1 - bs[i].amount) <= 0.5 / UNIT
  {
    hide Round8, Abs;
    var n := |bs| - 1;
    NoMoreEntries(bs[..n]);
    if i < n {
      j := EntryForEachBalance(bs[..n], i);
    } else {
      j := |Amounts(bs[..n])|;
      RoundError(bs[n].amount);
    }
  }

  lemma {:induction false} NoMoreEntries(bs: seq<Balance>)
    ensures |Amounts(bs)| <= |bs|
  {
    if bs != [] {
      NoMoreEntries(bs[..|bs| - 1]);
    }
  }

  lemma {:induction false} BalanceForEachEntry(bs: seq<Balance>, j: nat) returns (i: nat)
    requires j < |Amounts(bs)|
    ensures j <= i < |bs| && bs[i].amount > 0.0
    ensures Amounts(bs)[j].0 == bs[i].address && Abs(Amounts(bs)[j].1 - bs[i].amount) <= 0.5 / UNIT
  {
    hide Round8, Abs;
    var n := |bs| - 1;
    NoMoreEntries(bs[..n]);
    if j < |Amounts(bs[..n])| {
      i := BalanceForEachEntry(bs[..n], j);
    } else {
      i := n;
      RoundError(bs[n].amount);
    }
  }

  /** As many entries as positive balances; and without a repeated address, no address twice. */
  lemma {:induction false} EntriesCount(bs: seq<Balance>)
    ensures |Amounts(bs)| == Positives(bs)
    ensures !PaysTwice(bs) ==> forall j, k :: 0 <= j < k < |Amounts(bs)| ==> Amounts(bs)[j].0 != Amounts(bs)[k].0
  {
    hide Round8;
    if bs != [] {
      var n := |bs| - 1;
      EntriesCount(bs[..n]);
      if !PaysTwice(bs) {
        assert !PaysTwice(bs[..n]) by { PrefixPaysOnce(bs, n); }
        forall j | 0 <= j < |Amounts(bs[..n])| && bs[n].amount > 0.0
          ensures Amounts(bs[..n])[j].0 != bs[n].address
        {
          var i := BalanceForEachEntry(bs[..n], j);
          assert bs[..n][i] == bs[i];
        }
      }
    }
  }

  lemma PrefixPaysOnce(bs: seq<Balance>, n: nat)
    requires n <= |bs| && !PaysTwice(bs)
    ensures !PaysTwice(bs[..n])
  {
  }

  function Positives(bs: seq<Balance>): nat {
    if bs == [] then 0 else Positives(bs[..|bs| - 1]) + (if bs[|bs| - 1].amount > 0.0 then 1 else 0)
  }

  // ----- the debits -----

  function Reset(b: Balance): Change {
    Change(b.address, -b.amount, Cause.Reset)
  }

  function Resets(bs: seq<Balance>): seq<Change> {
    seq(|bs|, i requires 0 <= i < |bs| => Reset(bs[i]))
  }

  /** The payment recorded for a balance: none without a transaction id or for a reward recipient. */
  function PaymentFor(txId: string, recipients: set<Address>, b: Balance): seq<Payment> {
    if txId != "" && b.address !in recipients then [Payment(b.address, b.amount, txId)] else []
  }

  function PaymentsFor(txId: string, recipients: set<Address>, bs: seq<Balance>): seq<Payment> {
    if bs == [] then []
    else PaymentsFor(txId, recipients, bs[..|bs| - 1]) + PaymentFor(txId, recipients, bs[|bs| - 1])
  }

  /** The store after all payments and debits. */
  function Debited(s: Store, txId: string, recipients: set<Address>, bs: seq<Balance>): Store {
    AddAmounts(s.(payments := s.payments + PaymentsFor(txId, recipients, bs)), Resets(bs))
  }

  /** What the balances of one address add up to. */
  function Owed(bs: seq<Balance>, a: Address): real {
    if bs == [] then 0.0 else Owed(bs[..|bs| - 1], a) + (if bs[|bs| - 1].address == a then bs[|bs| - 1].amount else 0.0)
  }

  lemma ResetsInit(bs: seq<Balance>)
    requires bs != []
    ensures var n := |bs| - 1; Resets(bs) == Resets(bs[..n]) + [Reset(bs[n])]
  {
  }

  /** The payments are out of the way of the balances. */
  lemma {:induction false} PaymentsCommute(s: Store, p: seq<Payment>, cs: seq<Change>)
    ensures AddAmounts(s.(payments := p), cs) == AddAmounts(s, cs).(payments := p)
  {
    if cs != [] {
      PaymentsCommute(s, p, cs[..|cs| - 1]);
    }
  }

  /** One balance more. */
  lemma DebitedOneMore(s: Store, txId: string, recipients: set<Address>, bs: seq<Balance>)
    requires bs != []
    ensures var n := |bs| - 1;
      var before := Debited(s, txId, recipients, bs[..n]);
      Debited(s, txId, recipients, bs) ==
        AddAmount(before.(payments := before.payments + PaymentFor(txId, recipients, bs[n])), Reset(bs[n]))
  {
    hide AddAmounts, AddAmount, Resets, PaymentFor;
    var n := |bs| - 1;
    var ps := s.payments + PaymentsFor(txId, recipients, bs[..n]);
    var qs := ps + PaymentFor(txId, recipients, bs[n]);
    ResetsInit(bs);
    var r := Resets(bs[..n]);
    AddAmountsFacts(s.(payments := ps), r);
    AddOneMore(s.(payments := qs), r, Reset(bs[n]));
    PaymentsCommute(s, ps, r);
    PaymentsCommute(s, qs, r);
    assert s.payments + PaymentsFor(txId, recipients, bs) == qs;
  }

  /** Each balance is debited by what was owed, once, whatever was credited since it was read. */
  lemma {:induction false} DebitedOnce(s: Store, txId: string, recipients: set<Address>, bs: seq<Balance>, a: Address)
    ensures BalanceOf(Debited(s, txId, recipients, bs), a) == BalanceOf(s, a) - Owed(bs, a)
  {
    hide AddAmounts, Debited, PaymentFor, Resets;
    if bs == [] {
      DebitedNone(s, txId, recipients);
    } else {
      var n := |bs| - 1;
      DebitedOnce(s, txId, recipients, bs[..n], a);
      DebitedOneMore(s, txId, recipients, bs);
    }
  }

  /** Every balance is debited, whatever the wallet said. Each of them is recorded as a payment exactly when there
      is a transaction id and no address among them receives block rewards. */
  lemma RecordedWhen(s: Store, txId: string, recipients: set<Address>, bs: seq<Balance>)
    ensures var t := Debited(s, txId, recipients, bs);
      && t.changes == s.changes + Resets(bs)
      && t.payments == s.payments + PaymentsFor(txId, recipients, bs)
    ensures |PaymentsFor(txId, recipients, bs)| == |bs|
      <==> bs == [] || (txId != "" && forall i :: 0 <= i < |bs| ==> bs[i].address !in recipients)
  {
    AddAmountsFacts(s.(payments := s.payments + PaymentsFor(txId, recipients, bs)), Resets(bs));
    CountPayments(txId, recipients, bs);
  }

  lemma {:induction false} CountPayments(txId: string, recipients: set<Address>, bs: seq<Balance>)
    ensures |PaymentsFor(txId, recipients, bs)| <= |bs|
    ensures |PaymentsFor(txId, recipients, bs)| == |bs|
      <==> bs == [] || (txId != "" && forall i :: 0 <= i < |bs| ==> bs[i].address !in recipients)
  {
    if bs != [] {
      CountPayments(txId, recipients, bs[..|bs| - 1]);
    }
  }

  function TotalBalances(bs: seq<Balance>): real {
    if bs == [] then 0.0 else TotalBalances(bs[..|bs| - 1]) + bs[|bs| - 1].amount
  }

  lemma {:induction false} ResetsTotal(bs: seq<Balance>)
    ensures TotalOf(Resets(bs)) == -TotalBalances(bs)
  {
    if bs != [] {
      var n := |bs| - 1;
      ResetsTotal(bs[..n]);
      ResetsInit(bs);
      assert Resets(bs)[..n] == Resets(bs[..n]);
    }
  }

  lemma {:induction false} AllPositive(bs: seq<Balance>)
    requires forall i :: 0 <= i < |bs| ==> bs[i].amount >= 0.0
    ensures TotalPositive(bs) == TotalBalances(bs)
  {
    if bs != [] {
      AllPositive(bs[..|bs| - 1]);
    }
  }

  /** For balances that are not negative, what is debited and what is sent differ by at most half a unit
      of the eighth digit for each of them. */
  lemma {:induction false} SentMatchesDebited(bs: seq<Balance>)
    requires forall i :: 0 <= i < |bs| ==> bs[i].amount >= 0.0
    ensures Abs(SumOf(Amounts(bs)) + TotalOf(Resets(bs))) <= |bs| as real * (0.5 / UNIT)
  {
    SentIsClose(bs);
    AllPositive(bs);
    ResetsTotal(bs);
    Scale(|Amounts(bs)|, |bs|, 0.5 / UNIT);
  }

  lemma Scale(m: nat, n: nat, e: real)
    requires m <= n && e >= 0.0
    ensures m as real * e <= n as real * e
  {
    assert (n - m) as real * e >= 0.0;
    assert n as real * e - m as real * e == (n - m) as real * e;
  }

  lemma {:induction false} OwedIsPositive(bs: seq<Balance>, a: Address)
    requires forall i :: 0 <= i < |bs| ==> bs[i].amount >= 0.0
    ensures Owed(bs, a) == PositiveOf(bs, a)
  {
    if bs != [] {
      OwedIsPositive(bs[..|bs| - 1], a);
    }
  }

  /** For balances that are not negative, every address is sent what it is debited, up to half a unit of the eighth
      digit for each of its balances. */
  lemma SentIsDebited(s: Store, txId: string, recipients: set<Address>, bs: seq<Balance>, a: Address)
    requires forall i :: 0 <= i < |bs| ==> bs[i].amount >= 0.0
    ensures Abs(CreditOf(Amounts(bs), a) - (BalanceOf(s, a) - BalanceOf(Debited(s, txId, recipients, bs), a)))
      <= CountOf(bs, a) as real * (0.5 / UNIT)
  {
    hide Abs, CreditOf, Debited, Amounts, Owed, PositiveOf;
    EachIsSentItsOwn(bs, a);
    DebitedOnce(s, txId, recipients, bs, a);
    OwedIsPositive(bs, a);
  }

  /** What is recorded: for every other address than a recipient's the amounts debited, under the transaction id;
      for recipients, or without an id, nothing. */
  lemma {:induction false} RecordedAmounts(txId: string, recipients: set<Address>, bs: seq<Balance>, a: Address)
    ensures forall p :: p in PaymentsFor(txId, recipients, bs) ==> p.confirmation == txId
    ensures RecordedFor(PaymentsFor(txId, recipients, bs), a)
      == if txId != "" && a !in recipients then Owed(bs, a) else 0.0
  {
    hide RecordedFor;
    if bs == [] {
      NothingRecorded(a);
    } else {
      var n := |bs| - 1;
      var before := PaymentsFor(txId, recipients, bs[..n]);
      RecordedAmounts(txId, recipients, bs[..n], a);
      if txId != "" && bs[n].address !in recipients {
        var p := Payment(bs[n].address, bs[n].amount, txId);
        assert PaymentsFor(txId, recipients, bs) == before + [p];
        RecordedOneMore(before, p, a);
      } else {
        assert PaymentsFor(txId, recipients, bs) == before;
      }
    }
  }

  function RecordedFor(ps: seq<Payment>, a: Address): real {
    if ps == [] then 0.0
    else RecordedFor(ps[..|ps| - 1], a) + (if ps[|ps| - 1].address == a then ps[|ps| - 1].amount else 0.0)
  }

  lemma NothingRecorded(a: Address)
    ensures RecordedFor([], a) == 0.0
  {
  }

  lemma RecordedOneMore(ps: seq<Payment>, p: Payment, a: Address)
    ensures RecordedFor(ps + [p], a) == RecordedFor(ps, a) + (if p.address == a then p.amount else 0.0)
  {
    assert (ps + [p])[..|ps + [p]| - 1] == ps;
  }

  // ----- PersistPayments -----

  /** The database operations for the balances and the commit. */
  function Operations(txId: string, recipients: set<Address>, bs: seq<Balance>): nat {
    |PaymentsFor(txId, recipients, bs)| + |bs| + 1
  }

  /** Payments and debits, balance by balance; operation number `failAt` throws. */
  method PersistAction(db: Database, txId: string, recipients: set<Address>, bs: seq<Balance>, failAt: nat)
    returns (ok: bool)
    modifies db
    ensures ok == (Operations(txId, recipients, bs) <= failAt)
    ensures ok ==> db.store == Debited(old(db.store), txId, recipients, bs)
  {
    hide Debited, AddAmount, PaymentsFor;
    var ops: nat := 0;
    var i := 0;
    DebitedNone(db.store, txId, recipients);
    assert bs[..0] == [];
    while i < |bs|
      invariant 0 <= i <= |bs| && ops <= failAt
      invariant ops + 1 == Operations(txId, recipients, bs[..i])
      invariant db.store == Debited(old(db.store), txId, recipients, bs[..i])
    {
      assert bs[..i + 1][..i] == bs[..i];
      DebitedOneMore(old(db.store), txId, recipients, bs[..i + 1]);
      OperationsOneMore(txId, recipients, bs, i);
      var payments := PaymentFor(txId, recipients, bs[i]);
      if ops + |payments| + 1 > failAt {
        return false;
      }
      db.store := db.store.(payments := db.store.payments + payments);
      db.Insert(Reset(bs[i]));
      ops := ops + |payments| + 1;
      i := i + 1;
    }
    assert bs[..i] == bs;
    ok := ops < failAt;
  }

  lemma DebitedNone(s: Store, txId: string, recipients: set<Address>)
    ensures Debited(s, txId, recipients, []) == s && Operations(txId, recipients, []) == 1
  {
  }

  lemma OperationsOneMore(txId: string, recipients: set<Address>, bs: seq<Balance>, i: nat)
    requires i < |bs|
    ensures Operations(txId, recipients, bs[..i + 1])
      == Operations(txId, recipients, bs[..i]) + |PaymentFor(txId, recipients, bs[i])| + 1
    ensures Operations(txId, recipients, bs[..i + 1]) <= Operations(txId, recipients, bs)
  {
    assert bs[..i + 1][..i] == bs[..i];
    OperationsGrow(txId, recipients, bs, i + 1);
  }

  lemma {:induction false} OperationsGrow(txId: string, recipients: set<Address>, bs: seq<Balance>, i: nat)
    requires i <= |bs|
    ensures Operations(txId, recipients, bs[..i]) <= Operations(txId, recipients, bs)
    decreases |bs| - i
  {
    if i < |bs| {
      assert bs[..i + 1][..i] == bs[..i];
      OperationsGrow(txId, recipients, bs, i + 1);
    } else {
      assert bs[..i] == bs;
    }
  }

  /** How one execution goes: the operation that throws, if it comes to it, and whether the policy retries. */
  datatype Attempt = Attempt(failAt: nat, retryable: bool)

  const RETRY_COUNT: nat := 8

  predicate Succeeds(a: Attempt, txId: string, recipients: set<Address>, bs: seq<Balance>) {
    Operations(txId, recipients, bs) <= a.failAt
  }

  /** Some execution succeeds, and every one before it failed in a way that is retried. */
  predicate Persists(attempts: nat -> Attempt, txId: string, recipients: set<Address>, bs: seq<Balance>) {
    exists k: nat :: k <= RETRY_COUNT && SucceedsAt(attempts, txId, recipients, bs, k)
  }

  predicate SucceedsAt(attempts: nat -> Attempt, txId: string, recipients: set<Address>, bs: seq<Balance>, k: nat) {
    && Succeeds(attempts(k), txId, recipients, bs)
    && RetriedUntil(attempts, txId, recipients, bs, k)
  }

  predicate RetriedUntil(attempts: nat -> Attempt, txId: string, recipients: set<Address>, bs: seq<Balance>, k: nat) {
    forall j: nat :: j < k ==> !Succeeds(attempts(j), txId, recipients, bs) && attempts(j).retryable
  }

  /** Nine executions are the most: the ninth may still succeed, and nothing after it counts. */
  lemma NineExecutions(attempts: nat -> Attempt, txId: string, recipients: set<Address>, bs: seq<Balance>)
    ensures (forall j: nat :: j < 9 ==> !Succeeds(attempts(j), txId, recipients, bs))
      ==> !Persists(attempts, txId, recipients, bs)
    ensures RetriedUntil(attempts, txId, recipients, bs, 8) && Succeeds(attempts(8), txId, recipients, bs)
      ==> Persists(attempts, txId, recipients, bs)
  {
    hide Succeeds;
    if RetriedUntil(attempts, txId, recipients, bs, 8) && Succeeds(attempts(8), txId, recipients, bs) {
      assert SucceedsAt(attempts, txId, recipients, bs, 8);
    }
  }

  /** PersistPayments: the debits are made once, or the exception leaves the store as it was. */
  method PersistPayments(db: Database, txId: string, recipients: set<Address>, bs: seq<Balance>,
                         attempts: nat -> Attempt)
    returns (ok: bool)
    modifies db
    ensures ok == Persists(attempts, txId, recipients, bs)
    ensures db.store == if ok then Debited(old(db.store), txId, recipients, bs) else old(db.store)
  {
    hide Debited, Operations;
    var k := 0;
    while true
      invariant k <= RETRY_COUNT
      invariant RetriedUntil(attempts, txId, recipients, bs, k)
      invariant db.store == old(db.store)
      decreases RETRY_COUNT - k
    {
      var begin := db.store;
      var done := PersistAction(db, txId, recipients, bs, attempts(k).failAt);
      if done {
        assert SucceedsAt(attempts, txId, recipients, bs, k);
        return true;
      }
      db.Rollback(begin);
      if !attempts(k).retryable || k == RETRY_COUNT {
        return false;
      }
      k := k + 1;
    }
  }

  // ----- PayoutAsync -----

  datatype Call = SendMany(amounts: seq<(Address, real)>) | WalletPassphrase | WalletLock

  /** A reply without error (the transaction id of a transfer), an error, or an exception. */
  datatype Reply = NoError(txId: string) | Error(code: int) | Throws

  const UNLOCK_NEEDED: int := -13

  /** The wallet daemon: what it was asked and what it answered. */
  class Wallet {
    var calls: seq<(Call, Reply)>
    const replies: nat -> Reply

    constructor (r: nat -> Reply)
      ensures calls == [] && replies == r
    {
      calls, replies := [], r;
    }

    method Execute(c: Call) returns (r: Reply)
      modifies this
      ensures r == replies(|old(calls)|) && calls == old(calls) + [(c, r)]
    {
      r := replies(|calls|);
      calls := calls + [(c, r)];
    }
  }

  /** How the transfer ends: sent under a transaction id, refused, or with an exception. */
  datatype Transfer = Sent(txId: string) | Refused | Aborted

  /** The calls of a transfer and its end, for the replies from number `n` on. */
  function TransferCalls(amounts: seq<(Address, real)>, password: string, replies: nat -> Reply, n: nat)
    : (seq<(Call, Reply)>, Transfer)
  {
    var send := [(SendMany(amounts), replies(n))];
    match replies(n)
    case NoError(txId) => (send, Sent(txId))
    case Throws => (send, Aborted)
    case Error(code) =>
      if code != UNLOCK_NEEDED || password == "" then (send, Refused)
      else
        var unlock := send + [(WalletPassphrase, replies(n + 1))];
        match replies(n + 1)
        case Error(_) => (unlock, Refused)
        case Throws => (unlock, Aborted)
        case NoError(_) =>
          var again := unlock + [(SendMany(amounts), replies(n + 2))];
          match replies(n + 2)
          case Throws => (again, Aborted)
          case Error(_) => (again, Refused)
          case NoError(txId) =>
            (again + [(WalletLock, replies(n + 3))], if replies(n + 3).Throws? then Aborted else Sent(txId))
  }

  /** The sending half of PayoutAsync with its jump back after unlocking. */
  method SendPayout(wallet: Wallet, amounts: seq<(Address, real)>, password: string) returns (t: Transfer)
    modifies wallet
    ensures wallet.calls == old(wallet.calls) + TransferCalls(amounts, password, wallet.replies, |old(wallet.calls)|).0
    ensures t == TransferCalls(amounts, password, wallet.replies, |old(wallet.calls)|).1
  {
    var didUnlockWallet := false;
    ghost var n := |wallet.calls|;
    while true
      invariant !didUnlockWallet ==> wallet.calls == old(wallet.calls)
      invariant didUnlockWallet ==>
        && password != "" && wallet.replies(n) == Error(UNLOCK_NEEDED) && wallet.replies(n + 1).NoError?
        && wallet.calls == old(wallet.calls)
          + [(SendMany(amounts), wallet.replies(n)), (WalletPassphrase, wallet.replies(n + 1))]
      decreases !didUnlockWallet
    {
      var result := wallet.Execute(SendMany(amounts));
      if result.Throws? {
        return Aborted;
      }
      if result.NoError? {
        if didUnlockWallet {
          var locked := wallet.Execute(WalletLock);
          if locked.Throws? {
            return Aborted;
          }
        }
        return Sent(result.txId);
      }
      if result.code != UNLOCK_NEEDED || didUnlockWallet || password == "" {
        return Refused;
      }
      var unlockResult := wallet.Execute(WalletPassphrase);
      if unlockResult.Throws? {
        return Aborted;
      }
      if unlockResult.Error? {
        return Refused;
      }
      didUnlockWallet := true;
    }
  }

  function Transfers(calls: seq<(Call, Reply)>): nat {
    if calls == [] then 0 else Transfers(calls[..|calls| - 1]) + (if calls[|calls| - 1].0.SendMany? then 1 else 0)
  }

  function SuccessfulTransfers(calls: seq<(Call, Reply)>): nat {
    if calls == [] then 0
    else SuccessfulTransfers(calls[..|calls| - 1])
         + (if calls[|calls| - 1].0.SendMany? && calls[|calls| - 1].1.NoError? then 1 else 0)
  }

  lemma TransfersAppend(calls: seq<(Call, Reply)>, c: (Call, Reply))
    ensures Transfers(calls + [c]) == Transfers(calls) + (if c.0.SendMany? then 1 else 0)
    ensures SuccessfulTransfers(calls + [c])
      == SuccessfulTransfers(calls) + (if c.0.SendMany? && c.1.NoError? then 1 else 0)
  {
    assert (calls + [c])[..|calls + [c]| - 1] == calls;
  }

  lemma TransfersFirst(c: (Call, Reply))
    ensures Transfers([c]) == (if c.0.SendMany? then 1 else 0)
    ensures SuccessfulTransfers([c]) == (if c.0.SendMany? && c.1.NoError? then 1 else 0)
  {
    TransfersAppend([], c);
    assert [] + [c] == [c];
  }

  /** At most one transfer succeeds; a second one is only tried after the daemon asked for unlocking and the
      passphrase was accepted; a payout counts as sent exactly when a transfer succeeded and locking did not throw. */
  lemma OneSuccessfulTransfer(amounts: seq<(Address, real)>, password: string, replies: nat -> Reply, n: nat)
    ensures var (calls, t) := TransferCalls(amounts, password, replies, n);
      && SuccessfulTransfers(calls) <= 1 <= Transfers(calls) <= 2
      && (Transfers(calls) == 2 <==> replies(n) == Error(-13) && password != "" && replies(n + 1).NoError?)
      && (calls[|calls| - 1].0.WalletLock? <==> Transfers(calls) == 2 && SuccessfulTransfers(calls) == 1)
      && (forall i :: 0 <= i < |calls| && calls[i].0.SendMany? ==> calls[i].0.amounts == amounts)
      && (t.Sent? <==> SuccessfulTransfers(calls) == 1 && calls[|calls| - 1].1 != Throws)
      && (t.Refused? ==> SuccessfulTransfers(calls) == 0)
      && (t.Aborted? && SuccessfulTransfers(calls) != 0 ==> calls[|calls| - 1] == (WalletLock, Throws))
  {
    hide Transfers, SuccessfulTransfers;
    var c0 := (SendMany(amounts), replies(n));
    var c1 := (WalletPassphrase, replies(n + 1));
    var c2 := (SendMany(amounts), replies(n + 2));
    var c3 := (WalletLock, replies(n + 3));
    TransfersFirst(c0);
    TransfersAppend([c0], c1);
    TransfersAppend([c0] + [c1], c2);
    TransfersAppend([c0] + [c1] + [c2], c3);
  }

  lemma TransfersAreHonest(bs: seq<Balance>, password: string, replies: nat -> Reply, n: nat)
    ensures
      var calls := TransferCalls(Amounts(bs), password, replies, n).0;
      forall i, a :: 0 <= i < |calls| && calls[i].0.SendMany? ==> Honest(bs, calls[i].0.amounts, a)
  {
    hide Amounts, Honest, TransferCalls;
    OneSuccessfulTransfer(Amounts(bs), password, replies, n);
    forall a ensures Honest(bs, Amounts(bs), a) {
      EachIsSentItsOwn(bs, a);
    }
  }

  /** How a payout ends. */
  datatype Result = NothingToPay | Duplicate | NotSent | Exception | Paid(txId: string) | Unrecorded(txId: string)

  /** PayoutAsync: one transfer of the rounded amounts and, if it is confirmed, one debit of every balance. */
  method Payout(db: Database, wallet: Wallet, recipients: set<Address>, password: string, bs: seq<Balance>,
                attempts: nat -> Attempt)
    returns (r: Result)
    modifies db, wallet
    ensures wallet.calls == old(wallet.calls) +
      (if PaysTwice(bs) || Amounts(bs) == [] then []
       else TransferCalls(Amounts(bs), password, wallet.replies, |old(wallet.calls)|).0)
    ensures forall i, a :: |old(wallet.calls)| <= i < |wallet.calls| && wallet.calls[i].0.SendMany? ==>
      Honest(bs, wallet.calls[i].0.amounts, a)
    ensures r == Ends(bs, password, wallet.replies, |old(wallet.calls)|, recipients, attempts)
    ensures db.store == if r.Paid? then Debited(old(db.store), r.txId, recipients, bs) else old(db.store)
  {
    hide TransferCalls, Debited, Persists, Honest, Amounts;
    if PaysTwice(bs) {
      return Duplicate;
    }
    var amounts := Amounts(bs);
    if amounts == [] {
      return NothingToPay;
    }
    TransfersAreHonest(bs, password, wallet.replies, |wallet.calls|);
    ghost var before := wallet.calls;
    var t := SendPayout(wallet, amounts, password);
    assert forall i :: |before| <= i < |wallet.calls| ==>
      wallet.calls[i] == TransferCalls(amounts, password, wallet.replies, |before|).0[i - |before|];
    match t {
      case Refused => r := NotSent;
      case Aborted => r := Exception;
      case Sent(txId) =>
        var ok := PersistPayments(db, txId, recipients, bs, attempts);
        r := if ok then Paid(txId) else Unrecorded(txId);
    }
  }

  ghost function Ends(bs: seq<Balance>, password: string, replies: nat -> Reply, n: nat, recipients: set<Address>,
                      attempts: nat -> Attempt): Result
  {
    if PaysTwice(bs) then Duplicate
    else if Amounts(bs) == [] then NothingToPay
    else
      match TransferCalls(Amounts(bs), password, replies, n).1
      case Refused => NotSent
      case Aborted => Exception
      case Sent(txId) => if Persists(attempts, txId, recipients, bs) then Paid(txId) else Unrecorded(txId)
  }

  /** A payout is debited only if a transfer succeeded; coins leave the wallet without a debit exactly when
      locking the wallet again throws or the debits cannot be persisted. */
  lemma DebitedIffSent(bs: seq<Balance>, password: string, replies: nat -> Reply, n: nat, recipients: set<Address>,
                       attempts: nat -> Attempt)
    requires !PaysTwice(bs) && Amounts(bs) != []
    ensures var (calls, t) := TransferCalls(Amounts(bs), password, replies, n);
      var paid := Ends(bs, password, replies, n, recipients, attempts).Paid?;
      && (paid ==> SuccessfulTransfers(calls) == 1)
      && (SuccessfulTransfers(calls) == 1 && !paid <==>
          SuccessfulTransfers(calls) == 1
          && (calls[|calls| - 1] == (WalletLock, Throws) || (t.Sent? && !Persists(attempts, t.txId, recipients, bs))))
  {
    hide Transfers, SuccessfulTransfers, Persists, Amounts, PaysTwice;
    OneSuccessfulTransfer(Amounts(bs), password, replies, n);
  }
}
