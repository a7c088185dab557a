/** The stored side of payment processing: blocks, balances, the journal of balance
    changes and the payments, and transactions over them. */
module Ledger {

  type Address = string
  type Coin = string

  /** Balances are kept by address and coin: the primary key of a pool's rows. */
  datatype Account = Account(address: Address, coin: Coin)

  datatype Status = Pending | Confirmed | Orphaned

  /** A found block. Effort and confirmation progress are only displayed and left out. */
  datatype Block = Block(id: nat, created: int, status: Status, reward: real)

  /** The outcome of an operation that may throw. */
  datatype Outcome<+T> = Done(value: T) | Failed

  /** Why a balance changed. */
  datatype Cause = Reward(block: nat) | Reset

  datatype Change = Change(address: Address, amount: real, cause: Cause)

  datatype Payment = Payment(address: Address, amount: real, confirmation: string)

  /** What is stored for one pool; `coin` is the coin it is configured for. */
  datatype Store = Store(
    coin: Coin,
    blocks: map<nat, Block>,
    balances: map<Account, real>,
    changes: seq<Change>,
    payments: seq<Payment>)

  /** BalanceRepository.AddAmount: journals the change and updates or inserts the balance under the pool's coin. */
  function AddAmount(s: Store, c: Change): Store {
    var k := Account(c.address, s.coin);
    var before := if k in s.balances then s.balances[k] else 0.0;
    s.(changes := s.changes + [c], balances := s.balances[k := before + c.amount])
  }

  function AddAmounts(s: Store, cs: seq<Change>): Store
    decreases |cs|
  {
    if cs == [] then s else AddAmount(AddAmounts(s, cs[..|cs| - 1]), cs[|cs| - 1])
  }

  /** BlockRepository.UpdateBlock: an update of the row with that id, if there is one. */
  function UpdateBlock(s: Store, b: Block): Store {
    if b.id in s.blocks then s.(blocks := s.blocks[b.id := b]) else s
  }

  /** What an address holds in the pool's coin. */
  function BalanceOf(s: Store, a: Address): real {
    var k := Account(a, s.coin);
    if k in s.balances then s.balances[k] else 0.0
  }

  /** No balances under another coin than the pool's. */
  ghost predicate OneCoin(s: Store) {
    forall k :: k in s.balances ==> k.coin == s.coin
  }

  lemma AddOneMore(s: Store, cs: seq<Change>, c: Change)
    ensures AddAmounts(s, cs + [c]) == AddAmount(AddAmounts(s, cs), c)
  {
    assert (cs + [c])[..|cs + [c]| - 1] == cs;
  }

  /** Balances under other coins are never touched. */
  lemma {:induction false} OtherCoinsUntouched(s: Store, cs: seq<Change>, k: Account)
    requires k.coin != s.coin
    ensures var t := AddAmounts(s, cs);
      t.coin == s.coin && (k in t.balances <==> k in s.balances)
      && (k in s.balances ==> t.balances[k] == s.balances[k])
  {
    if cs != [] {
      OtherCoinsUntouched(s, cs[..|cs| - 1], k);
    }
  }

  lemma OneCoinAfterAdds(s: Store, cs: seq<Change>)
    requires OneCoin(s)
    ensures OneCoin(AddAmounts(s, cs))
  {
    hide AddAmounts;
    AddAmountsFacts(s, cs);
    forall k | k in AddAmounts(s, cs).balances
      ensures k.coin == s.coin
    {
      if k.coin != s.coin {
        OtherCoinsUntouched(s, cs, k);
      }
    }
  }

  // ----- amounts by address -----

  function SumOf(ps: seq<(Address, real)>): real {
    if ps == [] then 0.0 else ps[0].1 + SumOf(ps[1..])
  }

  lemma {:induction false} SumOfAppend(ps: seq<(Address, real)>, p: (Address, real))
    ensures SumOf(ps + [p]) == SumOf(ps) + p.1
  {
    if ps == [] {
      assert [p][1..] == [] && ps + [p] == [p];
    } else {
      assert (ps + [p])[1..] == ps[1..] + [p];
      SumOfAppend(ps[1..], p);
    }
  }

  /** What of it is for one address. */
  function CreditOf(ps: seq<(Address, real)>, a: Address): real {
    if ps == [] then 0.0 else (if ps[0].0 == a then ps[0].1 else 0.0) + CreditOf(ps[1..], a)
  }

  lemma {:induction false} CreditOfAppend(ps: seq<(Address, real)>, p: (Address, real), a: Address)
    ensures CreditOf(ps + [p], a) == CreditOf(ps, a) + (if p.0 == a then p.1 else 0.0)
  {
    if ps == [] {
      assert [p][1..] == [] && ps + [p] == [p];
    } else {
      assert (ps + [p])[1..] == ps[1..] + [p];
      CreditOfAppend(ps[1..], p, a);
    }
  }

  // ----- sums over the journal -----

  /** What the journal adds up to for one address. */
  function Journalled(cs: seq<Change>, a: Address): real {
    if cs == [] then 0.0
    else Journalled(cs[..|cs| - 1], a) + (if cs[|cs| - 1].address == a then cs[|cs| - 1].amount else 0.0)
  }

  /** All amounts together. */
  function TotalOf(cs: seq<Change>): real {
    if cs == [] then 0.0 else TotalOf(cs[..|cs| - 1]) + cs[|cs| - 1].amount
  }

  /** The entries that stem from one block. */
  function FromBlock(cs: seq<Change>, id: nat): seq<Change> {
    if cs == [] then []
    else FromBlock(cs[..|cs| - 1], id) + (if cs[|cs| - 1].cause == Reward(id) then [cs[|cs| - 1]] else [])
  }

  lemma {:induction false} FromBlockAppend(cs: seq<Change>, ds: seq<Change>, id: nat)
    ensures FromBlock(cs + ds, id) == FromBlock(cs, id) + FromBlock(ds, id)
  {
    if ds == [] {
      assert cs + ds == cs;
    } else {
      var n := |ds| - 1;
      assert (cs + ds)[..|cs + ds| - 1] == cs + ds[..n];
      FromBlockAppend(cs, ds[..n], id);
    }
  }

  /** Entries that all stem from one block, seen from that block and from another one. */
  lemma {:induction false} FromOneBlock(cs: seq<Change>, id: nat, other: nat)
    requires forall i :: 0 <= i < |cs| ==> cs[i].cause == Reward(id)
    ensures FromBlock(cs, other) == if other == id then cs else []
  {
    if cs != [] {
      FromOneBlock(cs[..|cs| - 1], id, other);
    }
  }

  lemma {:induction false} FromResets(cs: seq<Change>, id: nat)
    requires forall i :: 0 <= i < |cs| ==> cs[i].cause == Reset
    ensures FromBlock(cs, id) == []
  {
    if cs != [] {
      FromResets(cs[..|cs| - 1], id);
    }
  }

  lemma {:induction false} AddAmountsFacts(s: Store, cs: seq<Change>)
    ensures var t := AddAmounts(s, cs);
      t.coin == s.coin && t.blocks == s.blocks && t.payments == s.payments && t.changes == s.changes + cs
  {
    if cs != [] {
      AddAmountsFacts(s, cs[..|cs| - 1]);
    }
  }

  /** Each balance grows by what the entries have for its address. */
  lemma {:induction false} BalanceAfterAdds(s: Store, cs: seq<Change>, a: Address)
    ensures BalanceOf(AddAmounts(s, cs), a) == BalanceOf(s, a) + Journalled(cs, a)
  {
    if cs != [] {
      var n := |cs| - 1;
      BalanceAfterAdds(s, cs[..n], a);
      AddAmountsFacts(s, cs[..n]);
    }
  }

  lemma {:induction false} JournalledAppend(cs: seq<Change>, ds: seq<Change>, a: Address)
    ensures Journalled(cs + ds, a) == Journalled(cs, a) + Journalled(ds, a)
  {
    if ds == [] {
      assert cs + ds == cs;
    } else {
      var n := |ds| - 1;
      assert (cs + ds)[..|cs + ds| - 1] == cs + ds[..n];
      JournalledAppend(cs, ds[..n], a);
    }
  }

  lemma JournalledOne(c: Change, a: Address)
    ensures Journalled([c], a) == if c.address == a then c.amount else 0.0
  {
    assert [c][..0] == [];
    assert Journalled([c][..0], a) == 0.0;
  }

  /** Every balance is the sum of its journal. */
  ghost predicate Audited(s: Store) {
    forall a :: BalanceOf(s, a) == Journalled(s.changes, a)
  }

  lemma AuditedAfterAdd(s: Store, c: Change)
    requires Audited(s)
    ensures Audited(AddAmount(s, c))
  {
    var t := AddAmount(s, c);
    assert t.changes[..|t.changes| - 1] == s.changes;
  }

  lemma {:induction false} AuditedAfterAdds(s: Store, cs: seq<Change>)
    requires Audited(s)
    ensures Audited(AddAmounts(s, cs))
  {
    if cs != [] {
      AuditedAfterAdds(s, cs[..|cs| - 1]);
      AuditedAfterAdd(AddAmounts(s, cs[..|cs| - 1]), cs[|cs| - 1]);
    }
  }

  /** The database as the payment code sees it, and the transaction bracket around it. */
  class Database {
    var store: Store

    constructor (s: Store)
      ensures store == s
    {
      store := s;
    }

    method Insert(c: Change)
      modifies this
      ensures store == AddAmount(old(store), c)
    {
      store := AddAmount(store, c);
    }

    /** RunTx when the action throws: back to the state at its beginning. */
    method Rollback(begin: Store)
      modifies this
      ensures store == begin
    {
      store := begin;
    }
  }
}
