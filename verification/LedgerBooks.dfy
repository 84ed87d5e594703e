/** The ledger against a simpler reference: one signed balance a member and the set of Treasury coins. */
module LedgerBooks {
  import opened Bytes
  import opened Prelude
  import opened Sorting
  import opened Sums
  import opened Ledgers

  /** Signed balances and coins; nothing about locks, deficits or block heights. */
  datatype Books = Books(net: map<nat, int>, coins: Coins)

  const NO_BOOKS := Books(map[], map[])

  function BalanceOf(net: map<nat, int>, member: nat): int {
    if member in net then net[member] else 0
  }

  function Moved(net: map<nat, int>, member: nat, change: int): map<nat, int> {
    net[member := BalanceOf(net, member) + change]
  }

  function Credited(net: map<nat, int>, allocations: seq<Allocation>): Option<map<nat, int>>
    decreases |allocations|
  {
    if allocations == [] then Some(net)
    else
      var first := allocations[0];
      if !Storable(first.amount) || BalanceOf(net, first.member) + first.amount > I64_MAX then None
      else Credited(Moved(net, first.member, first.amount), allocations[1..])
  }

  /** The coins left are those not named by an input; the value gone is what they held. */
  ghost function BookTransaction(books: Books, tx: TreasuryTransaction, members: seq<nat>, height: nat): Option<Books>
    requires members != []
  {
    var kept := books.coins - ToSet(tx.inputs);
    var spent := MapSum(books.coins) - MapSum(kept);
    var output := OutputTotal(tx.outputs);
    if spent > U64_MAX || output > U64_MAX then None
    else
      match AddOutputs(kept, tx.txid, tx.outputs, height)
      case Err(_) => None
      case Ok(coins) =>
        if spent == 0 then
          var net :- if output == 0 then Some(books.net)
              else Credited(books.net, Allocations(members, tx.depositMember, output));
          Some(Books(net, coins))
        else if tx.exchangeMember.None? || tx.exchangeMember.value !in members || output > spent || !Storable(height)
            then None
        else if BalanceOf(books.net, tx.exchangeMember.value) - (spent - output) < 0 - I64_MAX then None
        else Some(Books(Moved(books.net, tx.exchangeMember.value, output - spent), coins))
  }

  ghost function BookTransactions(books: Books, txs: seq<TreasuryTransaction>, members: seq<nat>,
                                  height: nat): Option<Books>
    requires members != []
    decreases |txs|
  {
    if txs == [] then Some(books)
    else
      var next :- BookTransaction(books, txs[0], members, height);
      BookTransactions(next, txs[1..], members, height)
  }

  ghost function BookBlock(books: Books, txs: seq<TreasuryTransaction>, members: seq<nat>, height: nat): Option<Books> {
    if members == [] then None
    else
      KeepsNonEmpty(members);
      BookTransactions(books, txs, CanonicalKeys(members), height)
  }

  // ----- The ledger keeps the books -----

  function Net(accounts: Accounts): map<nat, int> {
    map member | member in accounts :: accounts[member].amount - accounts[member].deficit
  }

  function BooksOf(ledger: Ledger): Books {
    Books(Net(ledger.accounts), ledger.coins)
  }

  /** A balance or a deficit, never both; a lock is covered by the balance. */
  predicate SoundRow(row: Account) {
    && (row.amount == 0 || row.deficit == 0)
    && Storable(row.amount) && Storable(row.deficit)
    && (row.locked ==> row.lastTx.Some? && row.exchangeAmount <= row.amount)
    && (!row.locked ==> row.lastTx.None? && row.exchangeAmount == 0)
  }

  predicate Sound(accounts: Accounts) {
    forall member | member in accounts :: SoundRow(accounts[member])
  }

  lemma PutRow(accounts: Accounts, member: nat, row: Account)
    requires Sound(accounts) && SoundRow(row)
    ensures Sound(accounts[member := row])
    ensures Net(accounts[member := row]) == Net(accounts)[member := row.amount - row.deficit]
  {
  }

  lemma {:induction false} SumOfRest(coins: Coins, gone: set<Outpoint>)
    ensures MapSum(coins - gone) <= MapSum(coins)
    decreases |coins.Keys|
  {
    if outpoint :| outpoint in coins && outpoint in gone {
      MapSumRemove(coins, outpoint);
      assert (coins - {outpoint}).Keys == coins.Keys - {outpoint};
      SumOfRest(coins - {outpoint}, gone);
      assert coins - {outpoint} - gone == coins - gone;
    } else {
      assert coins - gone == coins;
    }
  }

  /** An input named twice counts once, and the running overflow check refuses exactly the totals that do not fit. */
  lemma {:induction false} InputsCountOnce(coins: Coins, inputs: seq<Outpoint>, spent: nat)
    requires spent <= U64_MAX
    ensures var total := spent + MapSum(coins) - MapSum(coins - ToSet(inputs));
            && total >= spent
            && SpendInputs(coins, inputs, spent) == if total <= U64_MAX then Ok((coins - ToSet(inputs), total))
                else Err(InputOverflow)
  {
    SumOfRest(coins, ToSet(inputs));
    if inputs == [] {
      assert coins - ToSet(inputs) == coins;
    } else {
      var rest := inputs[1..];
      assert forall x :: x in inputs <==> x == inputs[0] || x in rest;
      if inputs[0] !in coins {
        InputsCountOnce(coins, rest, spent);
        assert coins - ToSet(inputs) == coins - ToSet(rest);
      } else {
        var left := coins - {inputs[0]};
        MapSumRemove(coins, inputs[0]);
        assert coins - ToSet(inputs) == left - ToSet(rest);
        SumOfRest(left, ToSet(rest));
        if spent + coins[inputs[0]] <= U64_MAX {
          InputsCountOnce(left, rest, spent + coins[inputs[0]]);
        }
      }
    }
  }

  lemma {:induction false} AddedCoins(coins: Coins, txid: nat, outputs: seq<Output>, height: nat)
    requires AddOutputs(coins, txid, outputs, height).Ok?
    ensures MapSum(AddOutputs(coins, txid, outputs, height).value) == MapSum(coins) + OutputTotal(outputs)
    decreases |outputs|
  {
    if outputs != [] {
      var outpoint := Outpoint(txid, outputs[0].index);
      MapSumPut(coins, outpoint, outputs[0].amount);
      AddedCoins(coins[outpoint := outputs[0].amount], txid, outputs[1..], height);
    }
  }

  lemma CreditMovesBalance(accounts: Accounts, member: nat, amount: nat, height: nat)
    requires Sound(accounts) && Storable(height)
    ensures Credit(accounts, member, amount, height).Ok? <==>
            Storable(amount) && BalanceOf(Net(accounts), member) + amount <= I64_MAX
    ensures var r := Credit(accounts, member, amount, height);
            r.Ok? ==> Sound(r.value) && Net(r.value) == Moved(Net(accounts), member, amount)
  {
    var r := Credit(accounts, member, amount, height);
    if r.Ok? {
      PutRow(accounts, member, r.value[member]);
    }
  }

  lemma DebitMovesBalance(accounts: Accounts, member: nat, exchanged: nat, height: nat)
    requires Sound(accounts) && Storable(height)
    ensures Debit(accounts, member, exchanged, height).Ok? <==>
            BalanceOf(Net(accounts), member) - exchanged >= 0 - I64_MAX
    ensures var r := Debit(accounts, member, exchanged, height);
            r.Ok? ==> Sound(r.value) && Net(r.value) == Moved(Net(accounts), member, 0 - exchanged)
  {
    var r := Debit(accounts, member, exchanged, height);
    if r.Ok? {
      PutRow(accounts, member, r.value[member]);
    }
  }

  lemma {:induction false} CreditsMoveBalances(accounts: Accounts, allocations: seq<Allocation>, height: nat)
    requires Sound(accounts) && Storable(height)
    ensures CreditAll(accounts, allocations, height).Ok? <==> Credited(Net(accounts), allocations).Some?
    ensures var r := CreditAll(accounts, allocations, height);
            r.Ok? ==> Sound(r.value) && Credited(Net(accounts), allocations) == Some(Net(r.value))
    decreases |allocations|
  {
    if allocations != [] {
      CreditMovesBalance(accounts, allocations[0].member, allocations[0].amount, height);
      var credited := Credit(accounts, allocations[0].member, allocations[0].amount, height);
      if credited.Ok? {
        CreditsMoveBalances(credited.value, allocations[1..], height);
      }
    }
  }

  /** One transaction is accepted exactly when the books accept it, with the same balances and coins. */
  ghost predicate Tracks(ledger: Ledger, result: Result<Ledger, Error>, books: Option<Books>) {
    && (result.Ok? <==> books.Some?)
    && (result.Ok? ==> Sound(result.value.accounts) && books == Some(BooksOf(result.value)))
  }

  lemma OutputsNeedHeight(coins: Coins, txid: nat, outputs: seq<Output>, height: nat)
    requires AddOutputs(coins, txid, outputs, height).Ok? && OutputTotal(outputs) > 0
    ensures Storable(height)
  {
  }

  lemma TransactionKeepsBooks(ledger: Ledger, tx: TreasuryTransaction, members: seq<nat>, height: nat)
    requires members != [] && Sound(ledger.accounts)
    ensures Tracks(ledger, TransactionStep(ledger, tx, members, height),
            BookTransaction(BooksOf(ledger), tx, members, height))
  {
    InputsCountOnce(ledger.coins, tx.inputs, 0);
    var kept := ledger.coins - ToSet(tx.inputs);
    var spent := MapSum(ledger.coins) - MapSum(kept);
    var output := OutputTotal(tx.outputs);
    if spent <= U64_MAX && output <= U64_MAX && AddOutputs(kept, tx.txid, tx.outputs, height).Ok? {
      if spent == 0 {
        if output > 0 {
          OutputsNeedHeight(kept, tx.txid, tx.outputs, height);
          CreditsMoveBalances(ledger.accounts, Allocations(members, tx.depositMember, output), height);
        }
      } else if tx.exchangeMember.Some? && output <= spent && Storable(height) {
        DebitMovesBalance(ledger.accounts, tx.exchangeMember.value, spent - output, height);
      }
    }
  }

  lemma {:induction false} TransactionsKeepBooks(ledger: Ledger, txs: seq<TreasuryTransaction>, members: seq<nat>,
                                                 height: nat)
    requires members != [] && Sound(ledger.accounts)
    ensures Tracks(ledger, TransactionSteps(ledger, txs, members, height),
            BookTransactions(BooksOf(ledger), txs, members, height))
    decreases |txs|
  {
    if txs != [] {
      TransactionKeepsBooks(ledger, txs[0], members, height);
      var next := TransactionStep(ledger, txs[0], members, height);
      if next.Ok? {
        TransactionsKeepBooks(next.value, txs[1..], members, height);
      }
    }
  }

  lemma BlockKeepsBooks(ledger: Ledger, txs: seq<TreasuryTransaction>, members: seq<nat>, height: nat)
    requires Sound(ledger.accounts)
    ensures Tracks(ledger, BlockStep(ledger, txs, members, height), BookBlock(BooksOf(ledger), txs, members, height))
  {
    if members != [] {
      KeepsNonEmpty(members);
      TransactionsKeepBooks(ledger, txs, CanonicalKeys(members), height);
    }
  }

  // ----- One exchange -----

  /** When the ledger can record it: one agreed marker, a current member, coins and balances that can be stored. */
  ghost predicate Recordable(ledger: Ledger, tx: TreasuryTransaction, member: nat, members: seq<nat>, exchanged: int,
                             height: nat) {
    && tx.exchangeMember == Some(member) && member in members && Storable(height)
    && AddOutputs(ledger.coins - ToSet(tx.inputs), tx.txid, tx.outputs, height).Ok?
    && BalanceOf(Net(ledger.accounts), member) - exchanged >= 0 - I64_MAX
  }

  /** The balances after the transaction, or that it was refused. */
  function BalancesAfter(ledger: Ledger, tx: TreasuryTransaction, members: seq<nat>, height: nat): Option<map<nat, int>>
    requires members != []
  {
    var step := TransactionStep(ledger, tx, members, height);
    if step.Ok? then Some(Net(step.value.accounts)) else None
  }

  /** The member's balance down by what was exchanged and nobody else's changed, exactly when that can be recorded. */
  ghost function Debited(ledger: Ledger, tx: TreasuryTransaction, member: nat, members: seq<nat>, exchanged: int,
                         height: nat): Option<map<nat, int>> {
    if Recordable(ledger, tx, member, members, exchanged, height)
    then Some(Moved(Net(ledger.accounts), member, 0 - exchanged)) else None
  }

  lemma SpendIsDebit(ledger: Ledger, tx: TreasuryTransaction, member: nat, members: seq<nat>, spent: nat,
                     exchanged: int, height: nat)
    requires Sound(ledger.accounts) && members != []
    requires SpendInputs(ledger.coins, tx.inputs, 0) == Ok((ledger.coins - ToSet(tx.inputs), spent))
    requires OutputTotal(tx.outputs) < spent <= U64_MAX && exchanged == spent - OutputTotal(tx.outputs)
    requires tx.exchangeMember.None? || tx.exchangeMember == Some(member)
    ensures BalancesAfter(ledger, tx, members, height) == Debited(ledger, tx, member, members, exchanged, height)
  {
    if Storable(height) {
      DebitMovesBalance(ledger.accounts, member, exchanged, height);
    } else {
      DebitNeedsHeight(ledger.accounts, member, exchanged, height);
    }
  }

  lemma DebitNeedsHeight(accounts: Accounts, member: nat, exchanged: nat, height: nat)
    ensures Debit(accounts, member, exchanged, height).Ok? ==> Storable(height)
  {
  }

  // ----- Shares -----

  function AllocationTotal(allocations: seq<Allocation>): nat {
    if allocations == [] then 0 else allocations[0].amount + AllocationTotal(allocations[1..])
  }

  function PrefixTotal(allocations: seq<Allocation>, n: nat): nat
    requires n <= |allocations|
  {
    if n == 0 then 0 else PrefixTotal(allocations, n - 1) + allocations[n - 1].amount
  }

  lemma {:induction false} PrefixShift(first: Allocation, rest: seq<Allocation>, n: nat)
    requires n <= |rest|
    ensures PrefixTotal([first] + rest, n + 1) == first.amount + PrefixTotal(rest, n)
  {
    if n > 0 {
      PrefixShift(first, rest, n - 1);
      assert ([first] + rest)[n] == rest[n - 1];
    } else {
      assert PrefixTotal([first] + rest, 0) == 0;
    }
  }

  lemma {:induction false} TotalIsPrefix(allocations: seq<Allocation>)
    ensures AllocationTotal(allocations) == PrefixTotal(allocations, |allocations|)
  {
    if allocations != [] {
      TotalIsPrefix(allocations[1..]);
      PrefixShift(allocations[0], allocations[1..], |allocations| - 1);
      assert [allocations[0]] + allocations[1..] == allocations;
    }
  }

  lemma {:induction false} SharePrefix(members: seq<nat>, amount: nat, n: nat)
    requires members != [] && n <= |members|
    ensures PrefixTotal(EqualShares(members, amount), n) == n * (amount / |members|) + Min(n, amount % |members|)
  {
    if n > 0 {
      SharePrefix(members, amount, n - 1);
      NextMultiple(n, amount / |members|);
    }
  }

  lemma NextMultiple(n: nat, q: nat)
    requires n > 0
    ensures n * q == (n - 1) * q + q
  {
  }

  /** Shares add up to the deposit, differ by at most one, and the earlier members get the larger ones. */
  lemma SharesAreFair(members: seq<nat>, amount: nat)
    requires members != []
    ensures AllocationTotal(EqualShares(members, amount)) == amount
    ensures forall i | 0 <= i < |members| :: EqualShares(members, amount)[i].member == members[i]
    ensures forall i, j | 0 <= i < j < |members| ::
              EqualShares(members, amount)[j].amount <= EqualShares(members, amount)[i].amount <= EqualShares(members,
                  amount)[j].amount + 1
  {
    TotalIsPrefix(EqualShares(members, amount));
    SharePrefix(members, amount, |members|);
  }

  /** Only which members there are matters: neither their order nor repeats. */
  lemma BlockForgetsMemberOrder(ledger: Ledger, txs: seq<TreasuryTransaction>, members: seq<nat>, others: seq<nat>,
                                height: nat)
    requires ToSet(members) == ToSet(others)
    ensures BlockStep(ledger, txs, members, height) == BlockStep(ledger, txs, others, height)
  {
    AscendingIsCanonical(CanonicalKeys(members), CanonicalKeys(others));
    assert members == [] <==> others == [] by {
      assert members != [] ==> members[0] in ToSet(others);
      assert others != [] ==> others[0] in ToSet(members);
    }
  }

  // ----- Conservation -----

  ghost predicate Balanced(books: Books) {
    MapSum(books.net) == MapSum(books.coins)
  }

  lemma {:induction false} CreditsAdd(net: map<nat, int>, allocations: seq<Allocation>)
    requires Credited(net, allocations).Some?
    ensures MapSum(Credited(net, allocations).value) == MapSum(net) + AllocationTotal(allocations)
    decreases |allocations|
  {
    if allocations != [] {
      MapSumPut(net, allocations[0].member, BalanceOf(net, allocations[0].member) + allocations[0].amount);
      CreditsAdd(Moved(net, allocations[0].member, allocations[0].amount), allocations[1..]);
    }
  }

  lemma AllocationsAddUp(members: seq<nat>, tagged: Option<nat>, amount: nat)
    requires members != []
    ensures AllocationTotal(Allocations(members, tagged, amount)) == amount
  {
    SharesAreFair(members, amount);
  }

  lemma TransactionConserves(books: Books, tx: TreasuryTransaction, members: seq<nat>, height: nat)
    requires members != [] && Balanced(books) && BookTransaction(books, tx, members, height).Some?
    ensures Balanced(BookTransaction(books, tx, members, height).value)
  {
    var kept := books.coins - ToSet(tx.inputs);
    var spent := MapSum(books.coins) - MapSum(kept);
    var output := OutputTotal(tx.outputs);
    AddedCoins(kept, tx.txid, tx.outputs, height);
    if spent != 0 {
      MapSumPut(books.net, tx.exchangeMember.value, BalanceOf(books.net, tx.exchangeMember.value) + output - spent);
    } else if output > 0 {
      AllocationsAddUp(members, tx.depositMember, output);
      CreditsAdd(books.net, Allocations(members, tx.depositMember, output));
    }
  }

  lemma {:induction false} TransactionsConserve(books: Books, txs: seq<TreasuryTransaction>, members: seq<nat>,
                                                height: nat)
    requires members != [] && Balanced(books) && BookTransactions(books, txs, members, height).Some?
    ensures Balanced(BookTransactions(books, txs, members, height).value)
    decreases |txs|
  {
    if txs != [] {
      TransactionConserves(books, txs[0], members, height);
      TransactionsConserve(BookTransaction(books, txs[0], members, height).value, txs[1..], members, height);
    }
  }

  // ----- Runs: blocks, locks, resets and recoveries in any order -----

  datatype Event =
    | Block(txs: seq<TreasuryTransaction>, members: seq<nat>, height: nat)
    | LockFunds(member: nat, amount: nat, at: nat, transaction: seq<Byte>)
    | UnlockFunds(owner: nat, since: nat)
    | ReplaceLocked(holder: nat, expected: seq<Byte>, replacement: seq<Byte>)
    | Reset
    | Finish

  /** A refused operation leaves the store as it was. */
  function Step(s: Store, event: Event): Store {
    var ledger := s.ledger;
    match event
    case Block(txs, members, height) =>
      var r := BlockStep(ledger, txs, members, height);
      if r.Ok? then s.(ledger := r.value) else s
    case LockFunds(member, amount, at, transaction) =>
      var r := Lock(ledger.accounts, member, amount, at, transaction);
      if r.Ok? then s.(ledger := ledger.(accounts := r.value.0)) else s
    case UnlockFunds(member, at) =>
      var r := Unlock(ledger.accounts, member, at);
      if r.Ok? then s.(ledger := ledger.(accounts := r.value)) else s
    case ReplaceLocked(member, expected, replacement) =>
      s.(ledger := ledger.(accounts := UpdateLocked(ledger.accounts, member, expected, replacement).0))
    case Reset => Store(EMPTY.ledger, Captured(ledger.accounts, s.pending))
    case Finish => s.(pending := map[])
  }

  function Run(s: Store, events: seq<Event>): Store
    decreases |events|
  {
    if events == [] then s else Run(Step(s, events[0]), events[1..])
  }

  ghost function BookStep(books: Books, event: Event): Books {
    match event
    case Block(txs, members, height) =>
      var r := BookBlock(books, txs, members, height);
      if r.Some? then r.value else books
    case Reset => NO_BOOKS
    case _ => books
  }

  ghost function BookRun(books: Books, events: seq<Event>): Books
    decreases |events|
  {
    if events == [] then books else BookRun(BookStep(books, events[0]), events[1..])
  }

  lemma StepKeepsBooks(s: Store, event: Event)
    requires Sound(s.ledger.accounts)
    ensures Sound(Step(s, event).ledger.accounts)
    ensures BooksOf(Step(s, event).ledger) == BookStep(BooksOf(s.ledger), event)
  {
    match event
    case Block(txs, members, height) => BlockKeepsBooks(s.ledger, txs, members, height);
    case Reset => assert Net(map[]) == map[];
    case Finish =>
    case _ => LockStepKeepsNet(s, event);
  }

  predicate LockEvent(event: Event) {
    event.LockFunds? || event.UnlockFunds? || event.ReplaceLocked?
  }

  lemma LockStepKeepsNet(s: Store, event: Event)
    requires Sound(s.ledger.accounts) && LockEvent(event)
    ensures Sound(Step(s, event).ledger.accounts)
    ensures BooksOf(Step(s, event).ledger) == BooksOf(s.ledger)
  {
    var accounts, after := s.ledger.accounts, Step(s, event).ledger.accounts;
    var member := match event case LockFunds(member, _, _, _) => member case UnlockFunds(member, _) =>
        member case ReplaceLocked(member, _, _) => member;
    if member in accounts {
      SameBalance(accounts, member, after[member]);
      assert accounts[member := accounts[member]] == accounts;
    }
  }

  lemma SameBalance(accounts: Accounts, member: nat, row: Account)
    requires Sound(accounts) && member in accounts && SoundRow(row)
    requires row.amount == accounts[member].amount && row.deficit == accounts[member].deficit
    ensures Sound(accounts[member := row]) && Net(accounts[member := row]) == Net(accounts)
  {
  }

  lemma {:induction false} RunKeepsBooks(s: Store, events: seq<Event>)
    requires Sound(s.ledger.accounts)
    ensures Sound(Run(s, events).ledger.accounts)
    ensures BooksOf(Run(s, events).ledger) == BookRun(BooksOf(s.ledger), events)
    decreases |events|
  {
    if events != [] {
      StepKeepsBooks(s, events[0]);
      RunKeepsBooks(Step(s, events[0]), events[1..]);
    }
  }

  /** Each row, told from the member's signed balance alone. */
  predicate RowsFollow(accounts: Accounts, net: map<nat, int>) {
    && accounts.Keys == net.Keys
    && forall member | member in accounts ::
         && accounts[member].amount == Max(net[member], 0) && accounts[member].deficit == Max(0 - net[member], 0)
         && (accounts[member].locked ==> accounts[member].exchangeAmount <= accounts[member].amount)
  }

  /** In every run the ledger holds what the books say: refusals, overdraws and repayments included. */
  lemma LedgerFollowsBooks(events: seq<Event>)
    ensures var ledger := Run(EMPTY, events).ledger;
            var books := BookRun(NO_BOOKS, events);
            && ledger.coins == books.coins
            && RowsFollow(ledger.accounts, books.net)
  {
    assert Net(map[]) == map[];
    RunKeepsBooks(EMPTY, events);
    var accounts := Run(EMPTY, events).ledger.accounts;
    assert forall member | member in accounts :: SoundRow(accounts[member]);
  }

  lemma {:induction false} RunStaysBalanced(books: Books, events: seq<Event>)
    requires Balanced(books)
    ensures Balanced(BookRun(books, events))
    decreases |events|
  {
    if events != [] {
      var event := events[0];
      if event.Block? && BookBlock(books, event.txs, event.members, event.height).Some? {
        KeepsNonEmpty(event.members);
        TransactionsConserve(books, event.txs, CanonicalKeys(event.members), event.height);
      }
      RunStaysBalanced(BookStep(books, event), events[1..]);
    }
  }

  /** The Treasury holds exactly what members are owed, less what they overdrew. */
  lemma TreasuryIsConserved(events: seq<Event>)
    ensures MapSum(Run(EMPTY, events).ledger.coins) == MapSum(Net(Run(EMPTY, events).ledger.accounts))
  {
    assert Net(map[]) == map[];
    RunKeepsBooks(EMPTY, events);
    assert MapSum(NO_BOOKS.net) == MapSum(NO_BOOKS.coins);
    RunStaysBalanced(NO_BOOKS, events);
  }

  /** The committed history without anything about locks. */
  function WithoutLocks(events: seq<Event>): seq<Event> {
    if events == [] then []
    else (if events[0].Block? || events[0].Reset? then [events[0]] else []) + WithoutLocks(events[1..])
  }

  lemma {:induction false} BooksIgnoreLocks(books: Books, events: seq<Event>)
    ensures BookRun(books, WithoutLocks(events)) == BookRun(books, events)
    decreases |events|
  {
    if events != [] {
      var rest := WithoutLocks(events[1..]);
      BooksIgnoreLocks(BookStep(books, events[0]), events[1..]);
      if events[0].Block? || events[0].Reset? {
        assert ([events[0]] + rest)[1..] == rest;
      } else {
        assert [] + rest == rest;
      }
    }
  }

  lemma {:induction false} BookRunConcat(books: Books, first: seq<Event>, second: seq<Event>)
    ensures BookRun(books, first + second) == BookRun(BookRun(books, first), second)
    decreases |first|
  {
    if first == [] {
      assert first + second == second;
    } else {
      BookRunConcat(BookStep(books, first[0]), first[1..], second);
      assert (first + second)[1..] == first[1..] + second;
    }
  }

  /**
   * Locks never disturb accounting: balances, deficits and coins are those of the blocks alone, also after a reset
   * and replay.
   */
  lemma LocksNeverDisturbAccounting(before: seq<Event>, replay: seq<Event>)
    ensures BooksOf(Run(EMPTY, before).ledger) == BooksOf(Run(EMPTY, WithoutLocks(before)).ledger)
    ensures BooksOf(Run(EMPTY, before + [Reset] + replay).ledger) == BooksOf(Run(EMPTY, WithoutLocks(replay)).ledger)
  {
    assert Net(map[]) == map[];
    RunKeepsBooks(EMPTY, before);
    RunKeepsBooks(EMPTY, WithoutLocks(before));
    BooksIgnoreLocks(NO_BOOKS, before);
    RunKeepsBooks(EMPTY, before + [Reset] + replay);
    RunKeepsBooks(EMPTY, WithoutLocks(replay));
    BooksIgnoreLocks(NO_BOOKS, replay);
    BookRunConcat(NO_BOOKS, before + [Reset], replay);
    BookRunConcat(NO_BOOKS, before, [Reset]);
    assert BookRun(BookRun(NO_BOOKS, before), [Reset]) == NO_BOOKS;
  }

  // ----- Recovery -----

  /** What a reset sets aside is returned unchanged by every later reset until recovery finishes. */
  lemma {:induction false} LocksStaySetAside(s: Store, events: seq<Event>, member: nat)
    requires member in s.pending && forall event | event in events :: !event.Finish?
    ensures member in Run(s, events).pending && Run(s, events).pending[member] == s.pending[member]
    ensures s.pending[member] in InOrder(Captured(Run(s, events).ledger.accounts, Run(s, events).pending))
    decreases |events|
  {
    if events != [] {
      LocksStaySetAside(Step(s, events[0]), events[1..], member);
    } else {
      var captured := Captured(s.ledger.accounts, s.pending);
      assert captured[member] == s.pending[member];
      InOrderElements(captured, s.pending[member]);
    }
  }

  /** A reset sets aside every lock held, with its amount and transaction, beside those set aside before. */
  lemma ResetCapturesLocks(events: seq<Event>)
    ensures var before := Run(EMPTY, events);
            var accounts, after := before.ledger.accounts, Step(before, Reset).pending;
            && (forall member :: member in after <==>
                  member in before.pending || (member in accounts && accounts[member].locked))
            && forall member | member in after && member !in before.pending ::
                 after[member] == PendingLock(member, accounts[member].exchangeAmount, accounts[member].height,
                     accounts[member].lastTx.value)
  {
    RunKeepsBooks(EMPTY, events);
    var accounts := Run(EMPTY, events).ledger.accounts;
    assert forall member | member in accounts :: SoundRow(accounts[member]);
  }
}
