/** Who is credited, which coins the Treasury holds, and how long a lock lasts, told without the tables' own updates. */
module LedgerLaws {
  import opened Bytes
  import opened Prelude
  import opened Sorting
  import opened Sums
  import opened Ledgers
  import opened LedgerBooks

  // ----- What a row says -----

  function Signed(accounts: Accounts, member: nat): int {
    if member in accounts then accounts[member].amount - accounts[member].deficit else 0
  }

  datatype HeldLock = HeldLock(transaction: Option<seq<Byte>>, amount: nat)

  function HeldBy(accounts: Accounts, member: nat): Option<HeldLock> {
    if member in accounts && accounts[member].locked
    then Some(HeldLock(accounts[member].lastTx, accounts[member].exchangeAmount)) else None
  }

  predicate SameRow(before: Accounts, after: Accounts, member: nat) {
    (member in before <==> member in after) && (member in before ==> after[member] == before[member])
  }

  /** The signed balance is up by the amount, at the block's height, and a held lock stays as it was. */
  predicate Rises(before: Accounts, after: Accounts, member: nat, amount: nat, height: nat) {
    && member in after && after[member].height == height
    && Signed(after, member) == Signed(before, member) + amount
    && HeldBy(after, member) == HeldBy(before, member)
  }

  // ----- Deposits -----

  predicate SpendsNothing(coins: Coins, inputs: seq<Outpoint>) {
    forall outpoint | outpoint in inputs && outpoint in coins :: coins[outpoint] == 0
  }

  function LesserThan(members: set<nat>, member: nat): set<nat> {
    set other | other in members && other < member
  }

  /**
   * What a member gets of a deposit, if anything: a current member named by the tag all of it, otherwise each member
   * an equal share, and one more for as many of the least members as there are units left over.
   */
  function Due(members: set<nat>, tag: Option<nat>, total: nat, member: nat): Option<nat> {
    if tag.Some? && tag.value in members then if member == tag.value then Some(total) else None
    else if member !in members then None
    else Some(total / |members| + if |LesserThan(members, member)| < total % |members| then 1 else 0)
  }

  predicate Settled(before: Accounts, after: Accounts, member: nat, due: Option<nat>, height: nat) {
    if due.Some? then Rises(before, after, member, due.value, height) else SameRow(before, after, member)
  }

  predicate CanRise(accounts: Accounts, member: nat, due: Option<nat>) {
    due.Some? ==> Storable(due.value) && Signed(accounts, member) + due.value <= I64_MAX
  }

  predicate Apart(allocations: seq<Allocation>) {
    forall i, j | 0 <= i < j < |allocations| :: allocations[i].member != allocations[j].member
  }

  function DueFrom(allocations: seq<Allocation>, member: nat): Option<nat> {
    if allocations == [] then None
    else if allocations[0].member == member then Some(allocations[0].amount)
    else DueFrom(allocations[1..], member)
  }

  lemma {:induction false} DueFromAt(allocations: seq<Allocation>, member: nat)
    requires Apart(allocations)
    ensures forall i | 0 <= i < |allocations| && allocations[i].member == member ::
              DueFrom(allocations, member) == Some(allocations[i].amount)
    ensures DueFrom(allocations, member).Some? ==> exists i :: 0 <= i < |allocations| && allocations[i].member == member
  {
    if allocations != [] {
      var rest := allocations[1..];
      DueFromAt(rest, member);
      forall i | 0 < i < |allocations| && allocations[i].member == member
        ensures DueFrom(allocations, member) == Some(allocations[i].amount)
      {
        assert rest[i - 1] == allocations[i];
      }
      if i :| 0 <= i < |rest| && rest[i].member == member {
        assert allocations[i + 1].member == member;
      }
    }
  }

  lemma CreditSettles(accounts: Accounts, member: nat, amount: nat, height: nat)
    requires Sound(accounts) && Storable(height)
    ensures var r := Credit(accounts, member, amount, height);
            && (r.Ok? <==> CanRise(accounts, member, Some(amount)))
            && (r.Ok? ==>
                  && Sound(r.value) && Rises(accounts, r.value, member, amount, height)
                  && forall other | other != member :: SameRow(accounts, r.value, other))
  {
    CreditMovesBalance(accounts, member, amount, height);
  }

  ghost predicate AllCanRise(accounts: Accounts, allocations: seq<Allocation>) {
    forall member :: CanRise(accounts, member, DueFrom(allocations, member))
  }

  ghost predicate AllSettled(before: Accounts, after: Accounts, allocations: seq<Allocation>, height: nat) {
    forall member :: Settled(before, after, member, DueFrom(allocations, member), height)
  }

  /** After the first credit nothing is due to its member any more, and nobody else's row has changed. */
  lemma FirstCredit(accounts: Accounts, credited: Accounts, allocations: seq<Allocation>, height: nat)
    requires allocations != [] && Apart(allocations) && CanRise(accounts, allocations[0].member,
        Some(allocations[0].amount))
    requires Rises(accounts, credited, allocations[0].member, allocations[0].amount, height)
    requires forall other | other != allocations[0].member :: SameRow(accounts, credited, other)
    ensures AllCanRise(accounts, allocations) <==> AllCanRise(credited, allocations[1..])
    ensures forall after | AllSettled(credited, after, allocations[1..], height) ::
              AllSettled(accounts, after, allocations, height)
  {
    var first, rest := allocations[0], allocations[1..];
    DueFromAt(rest, first.member);
    assert DueFrom(rest, first.member).None?;
    forall member ensures CanRise(accounts, member, DueFrom(allocations, member)) <==>
        CanRise(credited, member, DueFrom(rest, member))
    {
      if member != first.member {
        assert SameRow(accounts, credited, member);
      }
    }
    forall after, member | AllSettled(credited, after, rest, height)
      ensures Settled(accounts, after, member, DueFrom(allocations, member), height)
    {
      assert Settled(credited, after, member, DueFrom(rest, member), height);
      if member != first.member {
        assert SameRow(accounts, credited, member);
      }
    }
  }

  /** Credits to different members reach exactly them, and are refused exactly when one balance cannot be stored. */
  lemma {:induction false} CreditsSettle(accounts: Accounts, allocations: seq<Allocation>, height: nat)
    requires Sound(accounts) && Storable(height) && Apart(allocations)
    ensures CreditAll(accounts, allocations, height).Ok? <==> AllCanRise(accounts, allocations)
    ensures CreditAll(accounts, allocations, height).Ok? ==>
              AllSettled(accounts, CreditAll(accounts, allocations, height).value, allocations, height)
    decreases |allocations|
  {
    if allocations != [] {
      var first := allocations[0];
      CreditSettles(accounts, first.member, first.amount, height);
      var credited := Credit(accounts, first.member, first.amount, height);
      if credited.Ok? {
        FirstCredit(accounts, credited.value, allocations, height);
        CreditsSettle(credited.value, allocations[1..], height);
      } else {
        assert !CanRise(accounts, first.member, DueFrom(allocations, first.member));
      }
    }
  }

  /** In an ascending list a member's position is the number of lesser ones. */
  lemma PositionIsRank(members: seq<nat>, i: nat)
    requires StrictlyAscending(members) && i < |members|
    ensures |LesserThan(ToSet(members), members[i])| == i
  {
    AscendingMultiset(members[..i]);
    var lesser := LesserThan(ToSet(members), members[i]);
    forall other ensures other in lesser <==> other in ToSet(members[..i]) {
      if other in lesser {
        var j :| 0 <= j < |members| && members[j] == other;
        assert members[..i][j] == other;
      }
      if other in members[..i] {
        var j :| 0 <= j < i && members[..i][j] == other;
        assert members[j] == other;
      }
    }
    assert lesser == ToSet(members[..i]);
  }

  lemma AllocationsAreDue(members: seq<nat>, tag: Option<nat>, total: nat, member: nat)
    requires StrictlyAscending(members) && members != []
    ensures Apart(Allocations(members, tag, total))
    ensures DueFrom(Allocations(members, tag, total), member) == Due(ToSet(members), tag, total, member)
  {
    var allocations := Allocations(members, tag, total);
    assert forall i, j | 0 <= i < j < |members| :: members[i] != members[j];
    DueFromAt(allocations, member);
    AscendingMultiset(members);
    if !(tag.Some? && tag.value in members) && member in members {
      var i :| 0 <= i < |members| && members[i] == member;
      PositionIsRank(members, i);
      assert allocations[i].member == member;
    }
  }

  lemma {:induction false} NothingSpent(coins: Coins, inputs: seq<Outpoint>, spent: nat)
    requires spent <= U64_MAX
    ensures SpendsNothing(coins, inputs) ==>
              SpendInputs(coins, inputs, spent).Ok? && SpendInputs(coins, inputs, spent).value.1 == spent
    ensures !SpendsNothing(coins, inputs) && SpendInputs(coins, inputs, spent).Ok? ==>
              SpendInputs(coins, inputs, spent).value.1 > spent
    decreases |inputs|
  {
    if inputs != [] {
      var rest := inputs[1..];
      assert forall x :: x in inputs <==> x == inputs[0] || x in rest;
      if inputs[0] !in coins {
        NothingSpent(coins, rest, spent);
      } else if spent + coins[inputs[0]] <= U64_MAX {
        NothingSpent(coins - {inputs[0]}, rest, spent + coins[inputs[0]]);
        assert forall x | x in rest && x in coins :: x == inputs[0] || x in coins - {inputs[0]};
      }
    }
  }

  predicate Created(tx: TreasuryTransaction, outpoint: Outpoint) {
    outpoint.txid == tx.txid && exists output :: output in tx.outputs && output.index == outpoint.index
  }

  /** The new coins can be stored under keys of their own. */
  predicate CoinsFit(coins: Coins, tx: TreasuryTransaction, height: nat) {
    && (forall output | output in tx.outputs ::
          && Storable(output.amount) && Storable(height)
          && (Outpoint(tx.txid, output.index) in coins ==> Outpoint(tx.txid, output.index) in tx.inputs))
    && forall i, j | 0 <= i < j < |tx.outputs| :: tx.outputs[i].index != tx.outputs[j].index
  }

  lemma {:induction false} AddedExactly(coins: Coins, tx: TreasuryTransaction, height: nat)
    requires tx.inputs == []
    ensures AddOutputs(coins, tx.txid, tx.outputs, height).Ok? <==> CoinsFit(coins, tx, height)
    ensures var r := AddOutputs(coins, tx.txid, tx.outputs, height);
            r.Ok? ==>
              && (forall outpoint :: outpoint in r.value <==> outpoint in coins || Created(tx, outpoint))
              && (forall outpoint | outpoint in coins :: r.value[outpoint] == coins[outpoint])
              && forall output | output in tx.outputs ::
                   && Outpoint(tx.txid, output.index) in r.value
                   && r.value[Outpoint(tx.txid, output.index)] == output.amount
    decreases |tx.outputs|
  {
    if tx.outputs != [] {
      var first := tx.outputs[0];
      var key, later := Outpoint(tx.txid, first.index), tx.(outputs := tx.outputs[1..]);
      assert tx.outputs == [first] + later.outputs;
      if Storable(first.amount) && Storable(height) && key !in coins {
        AddedExactly(coins[key := first.amount], later, height);
        FirstFits(coins, tx, height);
      } else {
        assert first in tx.outputs;
      }
    }
  }

  lemma FirstFits(coins: Coins, tx: TreasuryTransaction, height: nat)
    requires tx.inputs == [] && tx.outputs != [] && Outpoint(tx.txid, tx.outputs[0].index) !in coins
    requires Storable(tx.outputs[0].amount) && Storable(height)
    ensures CoinsFit(coins, tx, height) <==>
              CoinsFit(coins[Outpoint(tx.txid, tx.outputs[0].index) := tx.outputs[0].amount],
                  tx.(outputs := tx.outputs[1..]), height)
  {
    var first, rest := tx.outputs[0], tx.outputs[1..];
    var later := tx.(outputs := rest);
    var grown := coins[Outpoint(tx.txid, first.index) := first.amount];
    assert tx.outputs == [first] + rest;
    if CoinsFit(coins, tx, height) {
      forall output | output in rest ensures output.index != first.index && output in tx.outputs {
        var i :| 0 <= i < |rest| && rest[i] == output;
        assert tx.outputs[i + 1] == output;
      }
      forall i, j | 0 <= i < j < |rest| ensures rest[i].index != rest[j].index {
        assert rest[i] == tx.outputs[i + 1] && rest[j] == tx.outputs[j + 1];
      }
    }
    if CoinsFit(grown, later, height) {
      forall j | 0 < j < |tx.outputs| ensures tx.outputs[j].index != first.index && tx.outputs[j] == rest[j - 1] {
        assert rest[j - 1] in later.outputs;
      }
    }
  }

  /** The coins after a transaction: those it does not name as inputs, and its outputs, at their amounts. */
  ghost predicate CoinsAfter(before: Coins, after: Coins, tx: TreasuryTransaction) {
    && (forall outpoint :: outpoint in after <==>
          (outpoint in before && outpoint !in tx.inputs) || Created(tx, outpoint))
    && (forall outpoint | outpoint in before && outpoint !in tx.inputs :: after[outpoint] == before[outpoint])
    && forall output | output in tx.outputs ::
         && Outpoint(tx.txid, output.index) in after
         && after[Outpoint(tx.txid, output.index)] == output.amount
  }

  lemma AddedToKept(coins: Coins, tx: TreasuryTransaction, height: nat)
    ensures var r := AddOutputs(coins - ToSet(tx.inputs), tx.txid, tx.outputs, height);
            (r.Ok? <==> CoinsFit(coins, tx, height)) && (r.Ok? ==> CoinsAfter(coins, r.value, tx))
  {
    var kept, bare := coins - ToSet(tx.inputs), tx.(inputs := []);
    AddedExactly(kept, bare, height);
    assert forall outpoint :: outpoint in kept <==> outpoint in coins && outpoint !in tx.inputs;
    assert CoinsFit(kept, bare, height) <==> CoinsFit(coins, tx, height);
    assert forall outpoint :: Created(bare, outpoint) <==> Created(tx, outpoint);
  }

  /** Whatever a transaction is, once accepted the Treasury holds exactly what it left and what it made. */
  lemma TreasuryHoldsExactly(ledger: Ledger, tx: TreasuryTransaction, members: seq<nat>, height: nat)
    requires members != [] && TransactionStep(ledger, tx, members, height).Ok?
    ensures CoinsAfter(ledger.coins, TransactionStep(ledger, tx, members, height).value.coins, tx)
  {
    InputsCountOnce(ledger.coins, tx.inputs, 0);
    AddedToKept(ledger.coins, tx, height);
  }

  /** A transaction that spends no Treasury value is accepted exactly when its coins and the credits can be stored. */
  ghost predicate Depositable(ledger: Ledger, tx: TreasuryTransaction, members: set<nat>, height: nat) {
    && OutputTotal(tx.outputs) <= U64_MAX && CoinsFit(ledger.coins, tx, height)
    && (OutputTotal(tx.outputs) > 0 ==> AllDueCanRise(ledger.accounts, members, tx.depositMember,
        OutputTotal(tx.outputs)))
  }

  ghost predicate AllDueCanRise(accounts: Accounts, members: set<nat>, tag: Option<nat>, total: nat) {
    forall member :: CanRise(accounts, member, Due(members, tag, total, member))
  }

  /** Every row after a deposit. */
  ghost predicate Shared(before: Accounts, after: Accounts, members: set<nat>, tag: Option<nat>, total: nat,
                         height: nat) {
    if total == 0 then after == before
    else forall member :: Settled(before, after, member, Due(members, tag, total, member), height)
  }

  lemma CreditDepositIsShared(accounts: Accounts, members: seq<nat>, tag: Option<nat>, total: nat, height: nat)
    requires Sound(accounts) && Storable(height) && StrictlyAscending(members) && members != [] && total > 0
    ensures CreditDeposit(accounts, members, tag, total, height).Ok? <==>
              AllDueCanRise(accounts, ToSet(members), tag, total)
    ensures CreditDeposit(accounts, members, tag, total, height).Ok? ==>
              Shared(accounts, CreditDeposit(accounts, members, tag, total, height).value, ToSet(members), tag, total,
                  height)
  {
    var allocations := Allocations(members, tag, total);
    forall member
      ensures Apart(allocations) && DueFrom(allocations, member) == Due(ToSet(members), tag, total, member)
    {
      AllocationsAreDue(members, tag, total, member);
    }
    assert Apart(allocations) by {
      AllocationsAreDue(members, tag, total, 0);
    }
    CreditsSettle(accounts, allocations, height);
  }

  /**
   * Who a deposit is credited to: the tagged member all of it, or else every current member its share, the larger
   * ones to the least members; nobody else's row changes. It is refused exactly when something cannot be stored.
   */
  lemma DepositReachesItsMembers(ledger: Ledger, tx: TreasuryTransaction, members: seq<nat>, height: nat)
    requires Sound(ledger.accounts) && SpendsNothing(ledger.coins, tx.inputs)
    requires StrictlyAscending(members) && members != []
    ensures var r := TransactionStep(ledger, tx, members, height);
            && (r.Ok? <==> Depositable(ledger, tx, ToSet(members), height))
            && (r.Ok? ==> Shared(ledger.accounts, r.value.accounts, ToSet(members), tx.depositMember,
                OutputTotal(tx.outputs), height))
  {
    InputsCountOnce(ledger.coins, tx.inputs, 0);
    NothingSpent(ledger.coins, tx.inputs, 0);
    AddedToKept(ledger.coins, tx, height);
    var total := OutputTotal(tx.outputs);
    if CoinsFit(ledger.coins, tx, height) && 0 < total <= U64_MAX {
      OutputsNeedHeight(ledger.coins - ToSet(tx.inputs), tx.txid, tx.outputs, height);
      CreditDepositIsShared(ledger.accounts, members, tx.depositMember, total, height);
    }
  }

  // ----- Exchanges -----

  /** The value of the known coins among the inputs, each counted once. */
  ghost function Spent(coins: Coins, inputs: seq<Outpoint>): int {
    MapSum(coins) - MapSum(coins - ToSet(inputs))
  }

  /** The signed balance is down by the amount, at the block's height, and the member's lock is over. */
  predicate Falls(before: Accounts, after: Accounts, member: nat, amount: int, height: nat) {
    && member in after && after[member].height == height
    && Signed(after, member) == Signed(before, member) - amount
    && HeldBy(after, member).None?
  }

  /** The one marker names a current member, nothing is gained, and the coins and the balance can be stored. */
  ghost predicate Exchangeable(ledger: Ledger, tx: TreasuryTransaction, members: seq<nat>, height: nat) {
    var spent, total := Spent(ledger.coins, tx.inputs), OutputTotal(tx.outputs);
    && tx.exchangeMember.Some? && tx.exchangeMember.value in members && Storable(height)
    && total <= spent <= U64_MAX && CoinsFit(ledger.coins, tx, height)
    && Signed(ledger.accounts, tx.exchangeMember.value) - (spent - total) >= 0 - I64_MAX
  }

  lemma ValueIsSpent(coins: Coins, inputs: seq<Outpoint>)
    requires !SpendsNothing(coins, inputs)
    ensures Spent(coins, inputs) > 0
  {
    InputsCountOnce(coins, inputs, 0);
    NothingSpent(coins, inputs, 0);
  }

  /** A transaction that spends Treasury value costs its member what leaves the Treasury, and nobody else anything. */
  lemma ExchangeDebitsItsMember(ledger: Ledger, tx: TreasuryTransaction, members: seq<nat>, height: nat)
    requires Sound(ledger.accounts) && members != [] && !SpendsNothing(ledger.coins, tx.inputs)
    ensures var r := TransactionStep(ledger, tx, members, height);
            && (r.Ok? <==> Exchangeable(ledger, tx, members, height))
            && (r.Ok? ==>
                  && Falls(ledger.accounts, r.value.accounts, tx.exchangeMember.value,
                           Spent(ledger.coins, tx.inputs) - OutputTotal(tx.outputs), height)
                  && forall other | other != tx.exchangeMember.value ::
                       SameRow(ledger.accounts, r.value.accounts, other))
  {
    InputsCountOnce(ledger.coins, tx.inputs, 0);
    ValueIsSpent(ledger.coins, tx.inputs);
    AddedToKept(ledger.coins, tx, height);
    var exchanged := Spent(ledger.coins, tx.inputs) - OutputTotal(tx.outputs);
    if tx.exchangeMember.Some? && exchanged >= 0 {
      DebitFalls(ledger.accounts, tx.exchangeMember.value, exchanged, height);
    }
  }

  lemma DebitFalls(accounts: Accounts, member: nat, exchanged: nat, height: nat)
    requires Sound(accounts)
    ensures var r := Debit(accounts, member, exchanged, height);
            && (r.Ok? <==> Storable(height) && Signed(accounts, member) - exchanged >= 0 - I64_MAX)
            && (r.Ok? ==>
                  && Falls(accounts, r.value, member, exchanged, height)
                  && forall other | other != member :: SameRow(accounts, r.value, other))
  {
    if Storable(height) {
      DebitMovesBalance(accounts, member, exchanged, height);
    }
  }

  // ----- Locks -----

  /** The block records an exchange of the member. */
  ghost predicate Debits(ledger: Ledger, txs: seq<TreasuryTransaction>, members: seq<nat>, height: nat, member: nat)
    requires members != []
    decreases |txs|
  {
    txs != [] &&
    ((txs[0].exchangeMember == Some(member) && !SpendsNothing(ledger.coins, txs[0].inputs))
     || (TransactionStep(ledger, txs[0], members, height).Ok?
         && Debits(TransactionStep(ledger, txs[0], members, height).value, txs[1..], members, height, member)))
  }

  /** The event ends or replaces a lock that the member holds. */
  ghost predicate Ends(s: Store, event: Event, member: nat) {
    match event
    case Block(txs, members, height) =>
      members != [] && BlockStep(s.ledger, txs, members, height).Ok?
      && (KeepsNonEmpty(members); Debits(s.ledger, txs, CanonicalKeys(members), height, member))
    case UnlockFunds(owner, since) => owner == member && Storable(since)
    case ReplaceLocked(holder, expected, _) =>
      holder == member && HeldBy(s.ledger.accounts, member).Some?
      && HeldBy(s.ledger.accounts, member).value.transaction == Some(expected)
    case Reset => true
    case _ => false
  }

  /** The event locks funds of a member that has none locked, within the balance. */
  predicate Locks(s: Store, event: Event, member: nat) {
    && event.LockFunds? && event.member == member && Storable(event.amount) && Storable(event.at)
    && member in s.ledger.accounts && s.ledger.accounts[member].amount >= event.amount
    && HeldBy(s.ledger.accounts, member).None?
  }

  /** A member's lock after an event, told from the lock before it. */
  ghost function LockAfter(s: Store, event: Event, member: nat): Option<HeldLock> {
    if Locks(s, event, member) then Some(HeldLock(Some(event.transaction), event.amount))
    else if !Ends(s, event, member) then HeldBy(s.ledger.accounts, member)
    else if event.ReplaceLocked?
        then Some(HeldLock(Some(event.replacement), HeldBy(s.ledger.accounts, member).value.amount))
    else None
  }

  lemma {:induction false} TransactionsKeepLocks(ledger: Ledger, txs: seq<TreasuryTransaction>, members: seq<nat>,
                                                 height: nat, member: nat)
    requires Sound(ledger.accounts) && StrictlyAscending(members) && members != []
    requires TransactionSteps(ledger, txs, members, height).Ok?
    ensures HeldBy(TransactionSteps(ledger, txs, members, height).value.accounts, member)
         == if Debits(ledger, txs, members, height, member) then None else HeldBy(ledger.accounts, member)
    decreases |txs|
  {
    if txs != [] {
      var next := TransactionStep(ledger, txs[0], members, height).value;
      TransactionKeepsLocks(ledger, txs[0], members, height, member);
      TransactionKeepsBooks(ledger, txs[0], members, height);
      TransactionsKeepLocks(next, txs[1..], members, height, member);
    }
  }

  lemma TransactionKeepsLocks(ledger: Ledger, tx: TreasuryTransaction, members: seq<nat>, height: nat, member: nat)
    requires Sound(ledger.accounts) && StrictlyAscending(members) && members != []
    requires TransactionStep(ledger, tx, members, height).Ok?
    ensures HeldBy(TransactionStep(ledger, tx, members, height).value.accounts, member)
         == if tx.exchangeMember == Some(member) && !SpendsNothing(ledger.coins, tx.inputs) then None
            else HeldBy(ledger.accounts, member)
  {
    var after := TransactionStep(ledger, tx, members, height).value.accounts;
    if SpendsNothing(ledger.coins, tx.inputs) {
      DepositReachesItsMembers(ledger, tx, members, height);
      if OutputTotal(tx.outputs) > 0 {
        var due := Due(ToSet(members), tx.depositMember, OutputTotal(tx.outputs), member);
        assert Settled(ledger.accounts, after, member, due, height);
      }
    } else {
      ExchangeDebitsItsMember(ledger, tx, members, height);
      if tx.exchangeMember != Some(member) {
        assert SameRow(ledger.accounts, after, member);
      }
    }
  }

  /** Every event moves a member's lock as told: only a confirmed exchange, an unlock or a reset ends it. */
  lemma LockFollowsEvents(s: Store, event: Event, member: nat)
    requires Sound(s.ledger.accounts)
    ensures HeldBy(Step(s, event).ledger.accounts, member) == LockAfter(s, event, member)
  {
    match event
    case Block(txs, members, height) =>
      if members != [] && BlockStep(s.ledger, txs, members, height).Ok? {
        KeepsNonEmpty(members);
        TransactionsKeepLocks(s.ledger, txs, CanonicalKeys(members), height, member);
      }
    case _ =>
  }

  /** Through every run in which nothing ends or replaces it, a lock stays as it was: no second exchange starts. */
  lemma {:induction false} HeldLockIsKept(s: Store, events: seq<Event>, member: nat)
    requires Sound(s.ledger.accounts) && HeldBy(s.ledger.accounts, member).Some?
    requires forall i | 0 <= i < |events| :: !Ends(Run(s, events[..i]), events[i], member)
    ensures HeldBy(Run(s, events).ledger.accounts, member) == HeldBy(s.ledger.accounts, member)
    decreases |events|
  {
    if events != [] {
      var next, rest := Step(s, events[0]), events[1..];
      assert Run(s, events[..0]) == s;
      LockFollowsEvents(s, events[0], member);
      StepKeepsBooks(s, events[0]);
      forall i | 0 <= i < |rest| ensures !Ends(Run(next, rest[..i]), rest[i], member) {
        assert events[..i + 1][1..] == rest[..i] && events[..i + 1][0] == events[0];
        assert Run(s, events[..i + 1]) == Run(next, rest[..i]);
      }
      HeldLockIsKept(next, rest, member);
    }
  }

  /** The request asks again for the very lock that the member holds. */
  predicate Repeats(s: Store, event: Event) {
    && event.LockFunds? && Storable(event.amount) && Storable(event.at)
    && HeldBy(s.ledger.accounts, event.member) == Some(HeldLock(Some(event.transaction), event.amount))
  }

  /** A lock operation touches nothing but its member's lock and height. */
  ghost predicate OnlyLockChanges(before: Accounts, after: Accounts, member: nat, height: nat) {
    && (forall other | other != member :: SameRow(before, after, other))
    && member in before && member in after
    && after[member].amount == before[member].amount && after[member].deficit == before[member].deficit
    && after[member].height == height
  }

  /**
   * A request for a lock is granted exactly when it is covered and nothing is locked, or when it repeats the lock held;
   * otherwise the store does not change.
   */
  lemma LockIsGrantedExactly(s: Store, event: Event)
    requires Sound(s.ledger.accounts) && event.LockFunds?
    ensures var granted := Locks(s, event, event.member) || Repeats(s, event);
            var after := Step(s, event);
            && (if granted then OnlyLockChanges(s.ledger.accounts, after.ledger.accounts, event.member, event.at)
                else after == s)
            && Lock(s.ledger.accounts, event.member, event.amount, event.at, event.transaction)
               == if Storable(event.at) && Storable(event.amount) then Ok((after.ledger.accounts, granted))
                  else Err(Database)
  {
    if event.member in s.ledger.accounts {
      assert SoundRow(s.ledger.accounts[event.member]);
    }
  }

  /** The other two lock operations touch nothing else either, and answer whether they did anything. */
  lemma LocksAreReleasedAndReplaced(s: Store, event: Event)
    requires Sound(s.ledger.accounts) && (event.UnlockFunds? || event.ReplaceLocked?)
    ensures var member := if event.UnlockFunds? then event.owner else event.holder;
            var accounts, after := s.ledger.accounts, Step(s, event).ledger.accounts;
            && (if Ends(s, event, member) && member in accounts
                then OnlyLockChanges(accounts, after, member, if event.UnlockFunds? then event.since
                    else accounts[member].height)
                else after == accounts)
            && Step(s, event).pending == s.pending && Step(s, event).ledger.coins == s.ledger.coins
            && (event.UnlockFunds? ==>
                  Unlock(accounts, member, event.since) == if Storable(event.since) then Ok(after) else Err(Database))
            && (event.ReplaceLocked? ==>
                  UpdateLocked(accounts, member, event.expected, event.replacement)
                  == (after, Ends(s, event, member)))
  {
  }

  // ----- What a reset lists -----

  ghost predicate NamesMembers(pending: map<nat, PendingLock>) {
    forall member | member in pending :: pending[member].member == member
  }

  lemma {:induction false} PendingNamesItsMember(s: Store, events: seq<Event>)
    requires NamesMembers(s.pending)
    ensures NamesMembers(Run(s, events).pending)
    decreases |events|
  {
    if events != [] {
      PendingNamesItsMember(Step(s, events[0]), events[1..]);
    }
  }

  lemma {:induction false} ListedAt(pending: map<nat, PendingLock>, members: seq<nat>)
    requires forall member | member in members :: member in pending
    ensures |Listed(pending, members)| == |members|
    ensures forall i | 0 <= i < |members| :: Listed(pending, members)[i] == pending[members[i]]
  {
    if members != [] {
      ListedAt(pending, members[1..]);
    }
  }

  /** Each member's lock once, by ascending member. */
  ghost predicate ListsInOrder(locks: seq<PendingLock>, pending: map<nat, PendingLock>) {
    && (forall i, j | 0 <= i < j < |locks| :: locks[i].member < locks[j].member)
    && (forall lock :: lock in locks <==> lock.member in pending && pending[lock.member] == lock)
  }

  lemma InOrderLists(pending: map<nat, PendingLock>)
    requires NamesMembers(pending)
    ensures ListsInOrder(InOrder(pending), pending)
  {
    var members := Ordered(pending.Keys, KeyLe);
    ListedAt(pending, members);
    forall i, j | 0 <= i < j < |members| ensures pending[members[i]].member < pending[members[j]].member {
      assert KeyLe(members[i], members[j]) && members[i] in pending.Keys && members[j] in pending.Keys;
    }
    forall lock ensures lock in InOrder(pending) <==> lock.member in pending && pending[lock.member] == lock {
      InOrderElements(pending, lock);
    }
  }

  /** In every run a reset lists what it has set aside so far: each member's lock once, by ascending member. */
  lemma ResetListsInOrder(events: seq<Event>)
    ensures var pending := Step(Run(EMPTY, events), Reset).pending;
            ListsInOrder(InOrder(pending), pending)
  {
    PendingNamesItsMember(EMPTY, events);
    InOrderLists(Step(Run(EMPTY, events), Reset).pending);
  }
}
