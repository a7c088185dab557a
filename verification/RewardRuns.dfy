/** Runs of payout cycles: any daemon answers, failures at any operation, blocks found and payments
    made in between. */
module RewardRuns {
  import opened Ledger
  import opened BlockClassification
  import opened BlockOrder
  import opened BlockRewards

  // ----- the state machine -----

  /** The store and what the running cycle still has to process. */
  datatype World = World(store: Store, work: seq<Block>)

  datatype Event =
    | Found(block: Block)
    | Cycle(pending: seq<Block>, batches: seq<Outcome<seq<Answer>>>)
    | Transact(scheme: Scheme, failAt: nat)
    | Debit(resets: seq<Change>, payments: seq<Payment>)

  /** The rows GetPendingBlocksForPool selects, in any order. */
  ghost predicate Snapshot(s: Store, pending: seq<Block>) {
    && DistinctIds(pending)
    && (forall k :: 0 <= k < |pending| ==>
      pending[k].id in s.blocks && s.blocks[pending[k].id] == pending[k] && pending[k].status == Pending)
    && (forall id :: id in s.blocks && s.blocks[id].status == Pending ==> s.blocks[id] in pending)
  }

  ghost predicate Enabled(w: World, e: Event) {
    match e
    case Found(b) => b.status == Pending && b.id !in w.store.blocks
    case Cycle(pending, batches) => w.work == [] && Snapshot(w.store, pending) && |batches| == PageCount(|pending|)
    case Transact(_, _) => w.work != []
    case Debit(resets, _) => forall i :: 0 <= i < |resets| ==> resets[i].cause == Reset
  }

  ghost function Next(pool: Pool, w: World, e: Event): World {
    if !Enabled(w, e) then w else
    match e
    case Found(b) => w.(store := w.store.(blocks := w.store.blocks[b.id := b]))
    case Cycle(pending, batches) =>
      (match ClassifyPages(pending, batches, |batches|)
       case Failed => w
       case Done(updated) => w.(work := OrderByCreated(updated)))
    case Transact(scheme, failAt) =>
      var (store, ok) := Transacted(w.store, pool, scheme, w.work[0], failAt);
      World(store, if ok then w.work[1..] else [])
    case Debit(resets, payments) =>
      w.(store := AddAmounts(w.store.(payments := w.store.payments + payments), resets))
  }

  ghost function Run(pool: Pool, w: World, es: seq<Event>): World {
    if es == [] then w else Next(pool, Run(pool, w, es[..|es| - 1]), es[|es| - 1])
  }

  // ----- what every run keeps -----

  /** What is known of schemes: how the rest they are given relates to the total they hand out. */
  type Law = (real, real) -> bool

  function AnyTotal(): Law {
    (rest: real, total: real) => true
  }

  function WholeRest(): Law {
    (rest: real, total: real) => total == rest
  }

  ghost predicate Keeps(pool: Pool, scheme: Scheme, law: Law) {
    forall b: Block :: scheme(b, Remainder(pool, b)).Done? ==>
      law(Remainder(pool, b), TotalOf(SchemeChanges(b, scheme(b, Remainder(pool, b)).value)))
  }

  /** The entries of a block are one distribution of its reward. */
  ghost predicate DistributedAs(pool: Pool, b: Block, entries: seq<Change>, law: Law) {
    exists credits :: entries == Distribution(pool, b, credits)
      && law(Remainder(pool, b), TotalOf(SchemeChanges(b, credits)))
  }

  /** A block has entries only once it is confirmed, and then those of one distribution. */
  ghost predicate EntriesMatch(pool: Pool, s: Store, id: nat, law: Law) {
    var entries := FromBlock(s.changes, id);
    if id in s.blocks && s.blocks[id].status == Confirmed
    then DistributedAs(pool, s.blocks[id], entries, law)
    else entries == []
  }

  /** What waits is pending in the store, and waits once. */
  ghost predicate WorkIsPending(w: World) {
    && DistinctIds(w.work)
    && forall k :: 0 <= k < |w.work| ==>
      && w.work[k].id in w.store.blocks
      && w.store.blocks[w.work[k].id].status == Pending
      && Reclassifies(w.store.blocks[w.work[k].id], w.work[k])
  }

  ghost predicate Sound(pool: Pool, w: World, law: Law) {
    && (forall id :: id in w.store.blocks ==> w.store.blocks[id].id == id)
    && WorkIsPending(w)
    && (forall id: nat :: EntriesMatch(pool, w.store, id, law))
  }

  ghost predicate EventKeeps(pool: Pool, e: Event, law: Law) {
    e.Transact? ==> Keeps(pool, e.scheme, law)
  }

  /** The empty database is a start. */
  lemma EmptyIsSound(pool: Pool, coin: Coin, law: Law)
    ensures var s := Store(coin, map[], map[], [], []); Sound(pool, World(s, []), law) && Audited(s) && OneCoin(s)
  {
  }

  /** A committed transaction: one row written, and for a confirmed block one distribution. */
  lemma TransactedEffect(pool: Pool, s: Store, scheme: Scheme, b: Block, failAt: nat)
    requires b.id in s.blocks
    ensures var (t, ok) := Transacted(s, pool, scheme, b, failAt);
      if !ok then t == s
      else
        && t.blocks == s.blocks[b.id := b]
        && (if b.status == Confirmed then
              && scheme(b, Remainder(pool, b)).Done?
              && t.changes == s.changes + Distribution(pool, b, scheme(b, Remainder(pool, b)).value)
            else t.changes == s.changes)
  {
    hide Remainder, Distribution, AddAmounts;
    if b.status == Confirmed && scheme(b, Remainder(pool, b)).Done? {
      AddAmountsFacts(s, Distribution(pool, b, scheme(b, Remainder(pool, b)).value));
    }
  }

  /** The entries of every block after a committed transaction. */
  lemma TransactedEntries(pool: Pool, s: Store, scheme: Scheme, b: Block, failAt: nat, id: nat)
    requires b.id in s.blocks && Transacted(s, pool, scheme, b, failAt).1
    ensures var t := Transacted(s, pool, scheme, b, failAt).0;
      FromBlock(t.changes, id) == FromBlock(s.changes, id)
        + (if b.status == Confirmed && b.id == id && scheme(b, Remainder(pool, b)).Done?
           then Distribution(pool, b, scheme(b, Remainder(pool, b)).value) else [])
  {
    hide Remainder, Distribution, Transacted, FromBlock;
    TransactedEffect(pool, s, scheme, b, failAt);
    if b.status == Confirmed {
      var d := Distribution(pool, b, scheme(b, Remainder(pool, b)).value);
      EntriesNameTheBlock(pool, b, scheme(b, Remainder(pool, b)).value);
      FromOneBlock(d, b.id, id);
      FromBlockAppend(s.changes, d, id);
    }
  }

  lemma TransactKeepsEntries(pool: Pool, w: World, scheme: Scheme, failAt: nat, id: nat, law: Law)
    requires w.work != [] && Sound(pool, w, law) && Keeps(pool, scheme, law)
    ensures EntriesMatch(pool, Next(pool, w, Transact(scheme, failAt)).store, id, law)
  {
    hide Remainder, Distribution, Transacted, FromBlock, SchemeChanges, TotalOf;
    var b := w.work[0];
    assert EntriesMatch(pool, w.store, id, law);
    assert EntriesMatch(pool, w.store, b.id, law);
    TransactedEffect(pool, w.store, scheme, b, failAt);
    if Transacted(w.store, pool, scheme, b, failAt).1 {
      TransactedEntries(pool, w.store, scheme, b, failAt, id);
    }
  }

  lemma TransactKeepsWork(pool: Pool, w: World, scheme: Scheme, failAt: nat, law: Law)
    requires w.work != [] && Sound(pool, w, law)
    ensures WorkIsPending(Next(pool, w, Transact(scheme, failAt)))
    ensures
      var s := Next(pool, w, Transact(scheme, failAt)).store;
      forall id :: id in s.blocks ==> s.blocks[id].id == id
  {
    hide Remainder, Distribution, Transacted, EntriesMatch;
    var b := w.work[0];
    TransactedEffect(pool, w.store, scheme, b, failAt);
    var v := Next(pool, w, Transact(scheme, failAt));
    if v.work != [] {
      forall k | 0 <= k < |v.work| ensures v.work[k] == w.work[k + 1] && v.work[k].id != b.id {
      }
    }
  }

  lemma {:induction false} CycleWork(pending: seq<Block>, batches: seq<Outcome<seq<Answer>>>, s: Store)
    requires Snapshot(s, pending) && |batches| == PageCount(|pending|)
    requires ClassifyPages(pending, batches, |batches|).Done?
    ensures WorkIsPending(World(s, OrderByCreated(ClassifyPages(pending, batches, |batches|).value)))
  {
    hide ClassifyPages, OrderByCreated, Thinned;
    var r := ClassifyPages(pending, batches, |batches|).value;
    var ordered := OrderByCreated(r);
    PagesThin(pending, batches, |batches|);
    PagesCover(|pending|);
    assert pending[..|pending|] == pending;
    ThinnedDistinct(r, pending);
    OrderKeeps(r);
    DistinctInAnyOrder(r, ordered);
    forall k | 0 <= k < |ordered|
      ensures ordered[k].id in s.blocks && s.blocks[ordered[k].id].status == Pending
              && Reclassifies(s.blocks[ordered[k].id], ordered[k])
    {
      assert ordered[k] in multiset(r);
      var i :| 0 <= i < |r| && r[i] == ordered[k];
      var j := ThinnedOrigin(r, pending, i);
    }
  }

  lemma {:induction false} DebitKeepsEntries(pool: Pool, s: Store, resets: seq<Change>, payments: seq<Payment>,
                                             id: nat, law: Law)
    requires EntriesMatch(pool, s, id, law)
    requires forall i :: 0 <= i < |resets| ==> resets[i].cause == Reset
    ensures var t := AddAmounts(s.(payments := s.payments + payments), resets);
      t.blocks == s.blocks && FromBlock(t.changes, id) == FromBlock(s.changes, id) && EntriesMatch(pool, t, id, law)
  {
    hide AddAmounts, FromBlock, DistributedAs;
    AddAmountsFacts(s.(payments := s.payments + payments), resets);
    FromBlockAppend(s.changes, resets, id);
    FromResets(resets, id);
  }

  lemma SoundStep(pool: Pool, w: World, e: Event, law: Law)
    requires Sound(pool, w, law) && EventKeeps(pool, e, law)
    ensures Sound(pool, Next(pool, w, e), law)
  {
    hide FromBlock, DistributedAs, Transacted, ClassifyPages, OrderByCreated, AddAmounts, Snapshot, Keeps;
    if Enabled(w, e) {
      match e
      case Found(b) =>
        forall id: nat ensures EntriesMatch(pool, Next(pool, w, e).store, id, law) {
          assert EntriesMatch(pool, w.store, id, law);
        }
      case Cycle(pending, batches) =>
        if ClassifyPages(pending, batches, |batches|).Done? {
          CycleWork(pending, batches, w.store);
        }
      case Transact(scheme, failAt) =>
        TransactKeepsWork(pool, w, scheme, failAt, law);
        forall id: nat ensures EntriesMatch(pool, Next(pool, w, e).store, id, law) {
          TransactKeepsEntries(pool, w, scheme, failAt, id, law);
        }
      case Debit(resets, payments) =>
        forall id: nat
          ensures EntriesMatch(pool, Next(pool, w, e).store, id, law) && Next(pool, w, e).store.blocks == w.store.blocks
        {
          assert EntriesMatch(pool, w.store, id, law);
          DebitKeepsEntries(pool, w.store, resets, payments, id, law);
        }
        assert EntriesMatch(pool, w.store, 0, law);
        DebitKeepsEntries(pool, w.store, resets, payments, 0, law);
    }
  }

  /** Over every run: no entries for pending or orphaned blocks, one distribution for a confirmed one. */
  lemma {:induction false} AlwaysSound(pool: Pool, w: World, es: seq<Event>, law: Law)
    requires Sound(pool, w, law)
    requires forall i :: 0 <= i < |es| ==> EventKeeps(pool, es[i], law)
    ensures Sound(pool, Run(pool, w, es), law)
  {
    hide Sound, EventKeeps, Next;
    if es != [] {
      var n := |es| - 1;
      AlwaysSound(pool, w, es[..n], law);
      SoundStep(pool, Run(pool, w, es[..n]), es[n], law);
    }
  }

  // ----- when a reward is distributed -----

  /** A step in which the stored status of a block goes from pending to confirmed. */
  predicate Confirms(s: Store, t: Store, id: nat) {
    && id in s.blocks && s.blocks[id].status == Pending
    && id in t.blocks && t.blocks[id].status == Confirmed
  }

  /** The whole distribution of the reward that was stored for the block, by the transaction at hand. */
  ghost predicate DistributesStored(pool: Pool, w: World, e: Event, t: Store, id: nat) {
    && id in w.store.blocks && id in t.blocks && t.blocks[id].reward == w.store.blocks[id].reward
    && e.Transact?
    && var b := t.blocks[id];
    && e.scheme(b, Remainder(pool, b)).Done?
    && FromBlock(w.store.changes, id) == []
    && FromBlock(t.changes, id) == Distribution(pool, b, e.scheme(b, Remainder(pool, b)).value)
  }

  /** Entries for a block appear exactly in the step that confirms it, all at once; a block that is
      no longer pending never changes. */
  ghost predicate StepIsRight(pool: Pool, w: World, e: Event, id: nat) {
    var t := Next(pool, w, e).store;
    && (if Confirms(w.store, t, id) then DistributesStored(pool, w, e, t, id)
        else FromBlock(t.changes, id) == FromBlock(w.store.changes, id))
    && (id in w.store.blocks ==> id in t.blocks)
    && (id in w.store.blocks && w.store.blocks[id].status != Pending ==> t.blocks[id] == w.store.blocks[id])
  }

  lemma TransactIsRight(pool: Pool, w: World, scheme: Scheme, failAt: nat, id: nat)
    requires Sound(pool, w, AnyTotal()) && w.work != []
    ensures StepIsRight(pool, w, Transact(scheme, failAt), id)
  {
    hide Remainder, Distribution, Transacted, FromBlock;
    var b := w.work[0];
    assert EntriesMatch(pool, w.store, id, AnyTotal());
    TransactedEffect(pool, w.store, scheme, b, failAt);
    if Transacted(w.store, pool, scheme, b, failAt).1 {
      TransactedEntries(pool, w.store, scheme, b, failAt, id);
    }
  }

  /** The reward of a block is distributed exactly in the committed step that confirms it. */
  lemma DistributedWhenConfirmed(pool: Pool, w: World, e: Event, id: nat)
    requires Sound(pool, w, AnyTotal())
    ensures StepIsRight(pool, w, e, id)
  {
    hide FromBlock, DistributedAs, Transacted, ClassifyPages, OrderByCreated, AddAmounts, Snapshot, Distribution;
    if Enabled(w, e) {
      assert EntriesMatch(pool, w.store, id, AnyTotal());
      match e
      case Found(b) =>
      case Cycle(pending, batches) =>
      case Transact(scheme, failAt) => TransactIsRight(pool, w, scheme, failAt, id);
      case Debit(resets, payments) => DebitKeepsEntries(pool, w.store, resets, payments, id, AnyTotal());
    }
  }

  /** How often the reward of a block is distributed in a run. */
  ghost function Distributions(pool: Pool, w: World, es: seq<Event>, id: nat): nat {
    if es == [] then 0
    else
      var n := |es| - 1;
      Distributions(pool, w, es[..n], id)
      + (if Confirms(Run(pool, w, es[..n]).store, Run(pool, w, es).store, id) then 1 else 0)
  }

  predicate IsConfirmed(s: Store, id: nat) {
    id in s.blocks && s.blocks[id].status == Confirmed
  }

  /** From no stored block to confirmed there is no single step. */
  lemma ConfirmedFromPending(pool: Pool, w: World, e: Event, id: nat)
    requires Sound(pool, w, AnyTotal())
    ensures
      var t := Next(pool, w, e).store;
      IsConfirmed(t, id) ==> IsConfirmed(w.store, id) || Confirms(w.store, t, id)
  {
    hide FromBlock, DistributedAs, Transacted, ClassifyPages, OrderByCreated, AddAmounts, Snapshot, Distribution;
    DistributedWhenConfirmed(pool, w, e, id);
    if Enabled(w, e) {
      match e
      case Found(b) =>
      case Cycle(pending, batches) =>
      case Transact(scheme, failAt) => TransactedEffect(pool, w.store, scheme, w.work[0], failAt);
      case Debit(resets, payments) =>
        assert EntriesMatch(pool, w.store, id, AnyTotal());
        DebitKeepsEntries(pool, w.store, resets, payments, id, AnyTotal());
    }
  }

  /** Over every run a reward is distributed once if the block is confirmed in it, and not at all otherwise. */
  lemma {:induction false} DistributedAtMostOnce(pool: Pool, w: World, es: seq<Event>, id: nat)
    requires Sound(pool, w, AnyTotal()) && !IsConfirmed(w.store, id)
    ensures Distributions(pool, w, es, id) == if IsConfirmed(Run(pool, w, es).store, id) then 1 else 0
  {
    hide Sound, Next;
    if es != [] {
      var n := |es| - 1;
      DistributedAtMostOnce(pool, w, es[..n], id);
      AlwaysSound(pool, w, es[..n], AnyTotal());
      ConfirmedFromPending(pool, Run(pool, w, es[..n]), es[n], id);
      DistributedWhenConfirmed(pool, Run(pool, w, es[..n]), es[n], id);
    }
  }

  /** Confirmed and orphaned are final, with every entry, in whatever follows. */
  lemma {:induction false} SettledForever(pool: Pool, w: World, es: seq<Event>, id: nat)
    requires Sound(pool, w, AnyTotal()) && id in w.store.blocks && w.store.blocks[id].status != Pending
    ensures var t := Run(pool, w, es).store;
      && id in t.blocks && t.blocks[id] == w.store.blocks[id]
      && FromBlock(t.changes, id) == FromBlock(w.store.changes, id)
  {
    hide Sound, Next, FromBlock;
    if es != [] {
      var n := |es| - 1;
      SettledForever(pool, w, es[..n], id);
      AlwaysSound(pool, w, es[..n], AnyTotal());
      DistributedWhenConfirmed(pool, Run(pool, w, es[..n]), es[n], id);
    }
  }

  /** In every run, a confirmed block has paid out what the scheme was not given, and a total that the scheme's
      law allows; any other block has paid nothing. */
  lemma ConfirmedPays(pool: Pool, w: World, es: seq<Event>, id: nat, law: Law) returns (total: real)
    requires Sound(pool, w, law) && forall i :: 0 <= i < |es| ==> EventKeeps(pool, es[i], law)
    ensures
      var t := Run(pool, w, es).store;
      if IsConfirmed(t, id) then
        var b := t.blocks[id];
        && law(Remainder(pool, b), total)
        && TotalOf(FromBlock(t.changes, id)) + OwnShare(pool, b.reward, pool.recipients)
           == b.reward - Remainder(pool, b) + total
      else TotalOf(FromBlock(t.changes, id)) == 0.0
  {
    hide FromBlock, Remainder, SchemeChanges, Run, RecipientChanges, OwnShare;
    AlwaysSound(pool, w, es, law);
    var t := Run(pool, w, es).store;
    assert EntriesMatch(pool, t, id, law);
    total := 0.0;
    if IsConfirmed(t, id) {
      var b := t.blocks[id];
      var credits :| FromBlock(t.changes, id) == Distribution(pool, b, credits)
                     && law(Remainder(pool, b), TotalOf(SchemeChanges(b, credits)));
      total := TotalOf(SchemeChanges(b, credits));
      TotalOfAppend(RecipientChanges(pool, b, pool.recipients), SchemeChanges(b, credits));
      RewardIsConserved(pool, b);
    }
  }

  /** With schemes that hand out what they are given, in every run the entries of a confirmed block and the
      pool's own share are its whole reward; any other block has paid nothing. */
  lemma RewardFullyPaid(pool: Pool, w: World, es: seq<Event>, id: nat)
    requires Sound(pool, w, WholeRest()) && forall i :: 0 <= i < |es| ==> EventKeeps(pool, es[i], WholeRest())
    ensures
      var t := Run(pool, w, es).store;
      TotalOf(FromBlock(t.changes, id)) ==
        if IsConfirmed(t, id) then t.blocks[id].reward - OwnShare(pool, t.blocks[id].reward, pool.recipients) else 0.0
  {
    hide FromBlock, Remainder, Run, OwnShare, Sound, EventKeeps;
    var total := ConfirmedPays(pool, w, es, id, WholeRest());
  }

  // ----- why a block is settled -----

  /** In event `e`, a cycle, answer `a` to block k of the snapshot makes it `c`. */
  ghost predicate Decides(e: Event, k: nat, a: Answer, c: Block) {
    && e.Cycle? && k < |e.pending| && e.pending[k].id == c.id && AnswerFor(e.batches, k, a)
    && (c.status == Orphaned ==> SaysOrphan(a))
    && (c.status == Confirmed ==> a == Details("generate"))
  }

  ghost predicate Decided(es: seq<Event>, c: Block) {
    exists i, k, a :: 0 <= i < |es| && Decides(es[i], k, a, c)
  }

  /** Every block that waits, and every one that is no longer pending, was decided in a cycle, apart from those
      that were settled to begin with. */
  ghost predicate AllDecided(s: Store, w: World, es: seq<Event>) {
    && (forall k :: 0 <= k < |w.work| ==> Decided(es, w.work[k]))
    && (forall id :: id in w.store.blocks && w.store.blocks[id].status != Pending ==>
          || (id in s.blocks && s.blocks[id].status != Pending)
          || Decided(es, w.store.blocks[id]))
  }

  lemma DecidedEarlier(es: seq<Event>, e: Event, c: Block)
    requires Decided(es, c)
    ensures Decided(es + [e], c)
  {
    var i, k, a :| 0 <= i < |es| && Decides(es[i], k, a, c);
    assert Decides((es + [e])[i], k, a, c);
  }

  lemma CycleDecides(pending: seq<Block>, batches: seq<Outcome<seq<Answer>>>, s: Store, es: seq<Event>, c: Block)
    requires Snapshot(s, pending) && ClassifyPages(pending, batches, |batches|).Done?
    requires c in OrderByCreated(ClassifyPages(pending, batches, |batches|).value)
    ensures Decided(es + [Cycle(pending, batches)], c)
  {
    hide ClassifyPages, OrderByCreated;
    var r := ClassifyPages(pending, batches, |batches|).value;
    OrderKeeps(r);
    assert c in multiset(r);
    var k, a := Origin(pending, batches, |batches|, c);
    assert Decides((es + [Cycle(pending, batches)])[|es|], k, a, c);
  }

  lemma DecidedStep(pool: Pool, s: Store, w: World, es: seq<Event>, e: Event)
    requires Sound(pool, w, AnyTotal()) && AllDecided(s, w, es)
    ensures AllDecided(s, Next(pool, w, e), es + [e])
  {
    hide Decided, Transacted, ClassifyPages, OrderByCreated, AddAmounts, Snapshot, EntriesMatch;
    forall c | Decided(es, c) ensures Decided(es + [e], c) {
      DecidedEarlier(es, e, c);
    }
    if Enabled(w, e) {
      match e
      case Found(b) =>
      case Cycle(pending, batches) =>
        if ClassifyPages(pending, batches, |batches|).Done? {
          forall c | c in OrderByCreated(ClassifyPages(pending, batches, |batches|).value)
            ensures Decided(es + [e], c)
          {
            CycleDecides(pending, batches, w.store, es, c);
          }
        }
      case Transact(scheme, failAt) => TransactedEffect(pool, w.store, scheme, w.work[0], failAt);
      case Debit(resets, payments) => AddAmountsFacts(w.store.(payments := w.store.payments + payments), resets);
    }
  }

  lemma {:induction false} AlwaysDecided(pool: Pool, w: World, es: seq<Event>)
    requires Sound(pool, w, AnyTotal()) && w.work == []
    ensures AllDecided(w.store, Run(pool, w, es), es)
  {
    hide Sound, Next, AllDecided;
    if es == [] {
      NothingDecided(w);
    } else {
      var n := |es| - 1;
      AlwaysDecided(pool, w, es[..n]);
      AlwaysSound(pool, w, es[..n], AnyTotal());
      DecidedStep(pool, w.store, Run(pool, w, es[..n]), es[..n], es[n]);
      assert es[..n] + [es[n]] == es;
    }
  }

  lemma NothingDecided(w: World)
    requires w.work == []
    ensures AllDecided(w.store, w, [])
  {
  }

  /** Over every run, a block becomes an orphan only in a cycle in which the daemon disowned it, and confirmed only
      in one in which the daemon called it spendable. */
  lemma SettledByAnswer(pool: Pool, w: World, es: seq<Event>, id: nat)
    requires Sound(pool, w, AnyTotal()) && w.work == []
    requires !(id in w.store.blocks && w.store.blocks[id].status != Pending)
    ensures
      var t := Run(pool, w, es).store;
      id in t.blocks && t.blocks[id].status != Pending ==>
        exists i: nat, k: nat, a ::
          && i < |es| && es[i].Cycle? && k < |es[i].pending| && es[i].pending[k].id == id
          && AnswerFor(es[i].batches, k, a)
          && (if t.blocks[id].status == Orphaned then SaysOrphan(a) else a == Details("generate"))
  {
    hide Run, AnswerFor, SaysOrphan;
    AlwaysDecided(pool, w, es);
    AlwaysSound(pool, w, es, AnyTotal());
    var t := Run(pool, w, es).store;
    if id in t.blocks && t.blocks[id].status != Pending {
      var i, k, a :| 0 <= i < |es| && Decides(es[i], k, a, t.blocks[id]);
    }
  }

  // ----- the balances -----

  lemma AuditedStep(pool: Pool, w: World, e: Event)
    requires Audited(w.store)
    ensures Audited(Next(pool, w, e).store)
  {
    hide AddAmounts, ClassifyPages, OrderByCreated, Snapshot, Distribution, Journalled, Remainder;
    if Enabled(w, e) {
      match e
      case Found(b) =>
        assert forall a :: BalanceOf(w.store, a) == BalanceOf(Next(pool, w, e).store, a);
      case Cycle(pending, batches) =>
      case Transact(scheme, failAt) => TransactAudited(pool, w.store, scheme, w.work[0], failAt);
      case Debit(resets, payments) =>
        var s := w.store.(payments := w.store.payments + payments);
        assert forall a :: BalanceOf(w.store, a) == BalanceOf(s, a);
        AuditedAfterAdds(s, resets);
    }
  }

  lemma TransactAudited(pool: Pool, s: Store, scheme: Scheme, b: Block, failAt: nat)
    requires Audited(s)
    ensures Audited(Transacted(s, pool, scheme, b, failAt).0)
  {
    hide AddAmounts, Distribution, Journalled, Remainder;
    if b.status == Confirmed && scheme(b, Remainder(pool, b)).Done? {
      var d := Distribution(pool, b, scheme(b, Remainder(pool, b)).value);
      AuditedAfterAdds(s, d);
      UpdateAudited(AddAmounts(s, d), b);
    } else {
      UpdateAudited(s, b);
    }
  }

  lemma UpdateAudited(s: Store, b: Block)
    requires Audited(s)
    ensures Audited(UpdateBlock(s, b))
  {
    hide Journalled;
    assert forall a :: BalanceOf(s, a) == BalanceOf(UpdateBlock(s, b), a);
  }

  /** In every run each balance is the sum of its journal entries. */
  lemma {:induction false} AlwaysAudited(pool: Pool, w: World, es: seq<Event>)
    requires Audited(w.store)
    ensures Audited(Run(pool, w, es).store)
  {
    hide Audited, Next;
    if es != [] {
      var n := |es| - 1;
      AlwaysAudited(pool, w, es[..n]);
      AuditedStep(pool, Run(pool, w, es[..n]), es[n]);
    }
  }

  lemma OneCoinStep(pool: Pool, w: World, e: Event)
    requires OneCoin(w.store)
    ensures OneCoin(Next(pool, w, e).store)
  {
    hide AddAmounts, ClassifyPages, OrderByCreated, Snapshot, Distribution, Remainder;
    if Enabled(w, e) {
      match e
      case Found(b) =>
      case Cycle(pending, batches) =>
      case Transact(scheme, failAt) =>
        var b := w.work[0];
        if b.status == Confirmed && scheme(b, Remainder(pool, b)).Done? {
          OneCoinAfterAdds(w.store, Distribution(pool, b, scheme(b, Remainder(pool, b)).value));
        }
      case Debit(resets, payments) => OneCoinAfterAdds(w.store.(payments := w.store.payments + payments), resets);
    }
  }

  /** No run leaves balances under another coin, if it began without. */
  lemma {:induction false} AlwaysOneCoin(pool: Pool, w: World, es: seq<Event>)
    requires OneCoin(w.store)
    ensures OneCoin(Run(pool, w, es).store)
  {
    hide OneCoin, Next;
    if es != [] {
      var n := |es| - 1;
      AlwaysOneCoin(pool, w, es[..n]);
      OneCoinStep(pool, Run(pool, w, es[..n]), es[n]);
    }
  }

  // ----- the cycle itself -----

  /** One transaction per classified block, failing at the given operations. */
  ghost function Transactions(scheme: Scheme, failAts: seq<nat>): (es: seq<Event>)
    ensures |es| == |failAts|
  {
    seq(|failAts|, i requires 0 <= i < |failAts| => Transact(scheme, failAts[i]))
  }

  lemma RunOneMore(pool: Pool, w: World, es: seq<Event>, e: Event)
    ensures Run(pool, w, es + [e]) == Next(pool, Run(pool, w, es), e)
  {
    hide Next;
    assert (es + [e])[..|es + [e]| - 1] == es;
  }

  /** Without work the remaining transactions of a cycle do nothing. */
  lemma {:induction false} Idle(pool: Pool, w: World, start: Event, ts: seq<Event>, i: nat)
    requires i <= |ts| && (forall k :: 0 <= k < |ts| ==> ts[k].Transact?)
    requires Run(pool, w, [start] + ts[..i]).work == []
    ensures Run(pool, w, [start] + ts) == Run(pool, w, [start] + ts[..i])
    decreases |ts| - i
  {
    hide Run;
    if i < |ts| {
      RunOneMore(pool, w, [start] + ts[..i], ts[i]);
      assert [start] + ts[..i] + [ts[i]] == [start] + ts[..i + 1];
      Idle(pool, w, start, ts, i + 1);
    } else {
      assert ts[..i] == ts;
    }
  }

  lemma CycleBegins(pool: Pool, s: Store, pending: seq<Block>, batches: seq<Outcome<seq<Answer>>>)
    requires Snapshot(s, pending) && |batches| == PageCount(|pending|)
    ensures Run(pool, World(s, []), [Cycle(pending, batches)]) ==
      World(s, match ClassifyPages(pending, batches, |batches|) case Failed => [] case Done(r) => OrderByCreated(r))
  {
    hide ClassifyPages, OrderByCreated, Snapshot;
    RunOneMore(pool, World(s, []), [], Cycle(pending, batches));
    assert [] + [Cycle(pending, batches)] == [Cycle(pending, batches)];
  }

  lemma CycleContinues(pool: Pool, w: World, start: Event, ts: seq<Event>, i: nat, work: seq<Block>)
    requires i < |ts| && ts[i].Transact? && work != []
    requires Run(pool, w, [start] + ts[..i]).work == work
    ensures var v := Run(pool, w, [start] + ts[..i]);
      Run(pool, w, [start] + ts[..i + 1]) ==
        var (t, ok) := Transacted(v.store, pool, ts[i].scheme, work[0], ts[i].failAt);
        World(t, if ok then work[1..] else [])
  {
    hide Run, Transacted;
    RunOneMore(pool, w, [start] + ts[..i], ts[i]);
    assert [start] + ts[..i] + [ts[i]] == [start] + ts[..i + 1];
  }

  /** The first `n` rows stand in the store as classified. */
  ghost predicate Written(s: Store, work: seq<Block>, n: nat) {
    && DistinctIds(work) && n <= |work|
    && (forall k :: 0 <= k < |work| ==> work[k].id in s.blocks)
    && (forall k :: 0 <= k < n ==> s.blocks[work[k].id] == work[k])
  }

  lemma WritesOneMore(pool: Pool, s: Store, scheme: Scheme, work: seq<Block>, failAt: nat, i: nat)
    requires i < |work| && Written(s, work, i)
    requires Transacted(s, pool, scheme, work[i], failAt).1
    ensures Written(Transacted(s, pool, scheme, work[i], failAt).0, work, i + 1)
  {
    hide Transacted;
    TransactedEffect(pool, s, scheme, work[i], failAt);
  }

  /** The processing loop: the blocks in order, each in a transaction of its own. */
  method ProcessBlocks(db: Database, pool: Pool, work: seq<Block>, scheme: Scheme, failAts: seq<nat>,
                       ghost w: World, ghost start: Event)
    returns (ok: bool)
    requires |work| <= |failAts|
    requires Run(pool, w, [start]) == World(db.store, work)
    requires Written(db.store, work, 0)
    modifies db
    ensures ok ==> Written(db.store, work, |work|)
    ensures World(db.store, []) == Run(pool, w, [start] + Transactions(scheme, failAts))
  {
    hide Run, Transacted, Written;
    ghost var ts := Transactions(scheme, failAts);
    var i := 0;
    assert [start] + ts[..0] == [start];
    while i < |work|
      invariant 0 <= i <= |work|
      invariant Run(pool, w, [start] + ts[..i]) == World(db.store, work[i..])
      invariant Written(db.store, work, i)
    {
      ghost var s := db.store;
      CycleContinues(pool, w, start, ts, i, work[i..]);
      assert work[i..][1..] == work[i + 1..];
      var done := ProcessBlock(db, pool, scheme, work[i], failAts[i]);
      if !done {
        Idle(pool, w, start, ts, i + 1);
        return false;
      }
      WritesOneMore(pool, s, scheme, work, failAts[i], i);
      i := i + 1;
    }
    Idle(pool, w, start, ts, i);
    ok := true;
  }

  /** UpdatePoolBalancesAsync is a run of the machine: a cycle and its transactions. When it does not throw,
      every classified block is stored as classified. */
  method UpdatePoolBalances(db: Database, pool: Pool, pending: seq<Block>, batches: seq<Outcome<seq<Answer>>>,
                            scheme: Scheme, failAts: seq<nat>)
    returns (ok: bool)
    requires Snapshot(db.store, pending) && |batches| == PageCount(|pending|) && |pending| <= |failAts|
    modifies db
    ensures ok ==>
      && ClassifyPages(pending, batches, |batches|).Done?
      && (var r := OrderByCreated(ClassifyPages(pending, batches, |batches|).value); Written(db.store, r, |r|))
    ensures World(db.store, []) ==
      Run(pool, World(old(db.store), []), [Cycle(pending, batches)] + Transactions(scheme, failAts))
  {
    hide Run, ClassifyPages, OrderByCreated, Snapshot, Written;
    ghost var w := World(db.store, []);
    CycleBegins(pool, db.store, pending, batches);
    var updated := ClassifyBlocks(pending, batches);
    if updated.Failed? {
      assert [Cycle(pending, batches)] + Transactions(scheme, failAts)[..0] == [Cycle(pending, batches)];
      Idle(pool, w, Cycle(pending, batches), Transactions(scheme, failAts), 0);
      return false;
    }
    NotMore(pending, batches);
    BeginsWritten(db.store, pending, batches);
    ok := ProcessBlocks(db, pool, OrderByCreated(updated.value), scheme, failAts, w, Cycle(pending, batches));
  }

  lemma {:induction false} BeginsWritten(s: Store, pending: seq<Block>, batches: seq<Outcome<seq<Answer>>>)
    requires Snapshot(s, pending) && |batches| == PageCount(|pending|)
    requires ClassifyPages(pending, batches, |batches|).Done?
    ensures Written(s, OrderByCreated(ClassifyPages(pending, batches, |batches|).value), 0)
  {
    hide ClassifyPages, OrderByCreated, Snapshot;
    CycleWork(pending, batches, s);
  }

  lemma {:induction false} ThinnedNotLonger(out: seq<Block>, blocks: seq<Block>)
    requires Thinned(out, blocks)
    ensures |out| <= |blocks|
    decreases |blocks|
  {
    if blocks != [] {
      var n := |blocks| - 1;
      if Thinned(out, blocks[..n]) {
        ThinnedNotLonger(out, blocks[..n]);
      } else {
        ThinnedNotLonger(out[..|out| - 1], blocks[..n]);
      }
    }
  }

  lemma NotMore(pending: seq<Block>, batches: seq<Outcome<seq<Answer>>>)
    requires |batches| == PageCount(|pending|) && ClassifyPages(pending, batches, |batches|).Done?
    ensures |OrderByCreated(ClassifyPages(pending, batches, |batches|).value)| <= |pending|
  {
    hide ClassifyPages, OrderByCreated, Thinned;
    var r := ClassifyPages(pending, batches, |batches|).value;
    PagesThin(pending, batches, |batches|);
    PagesCover(|pending|);
    assert pending[..|pending|] == pending;
    ThinnedNotLonger(r, pending);
    OrderKeeps(r);
    assert |multiset(r)| == |r| && |multiset(OrderByCreated(r))| == |OrderByCreated(r)|;
  }
}
