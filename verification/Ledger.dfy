/** high-storm/src/db/droplet.rs and chain.rs: Treasury coins, members' Droplets, exchange locks, and chain recovery. */
module Ledgers {
  import opened Bytes
  import opened Prelude
  import opened Sorting

  datatype Outpoint = Outpoint(txid: nat, index: nat)

  datatype Output = Output(index: nat, amount: nat)

  datatype TreasuryTransaction = TreasuryTransaction(
    txid: nat, inputs: seq<Outpoint>, outputs: seq<Output>, depositMember: Option<nat>, exchangeMember: Option<nat>)

  /** A `droplets` row. */
  datatype Account = Account(
    amount: nat, deficit: nat, height: nat, locked: bool, lastTx: Option<seq<Byte>>, exchangeAmount: nat)

  /** A `chain_recovery_droplet_locks` row. */
  datatype PendingLock = PendingLock(member: nat, amount: nat, height: nat, transaction: seq<Byte>)

  datatype Error =
    | NoMembers
    | InputOverflow
    | OutputOverflow
    | NoMemberMarker
    | NonMember
    | IncreasesTreasury
    | DeficitOverflow
    | Database

  type Accounts = map<nat, Account>
  type Coins = map<Outpoint, nat>

  /** `encode_u64`: stored integers are signed 64-bit. */
  predicate Storable(value: nat) {
    value <= I64_MAX
  }

  // ----- One Treasury transaction -----

  /** Consumes the known inputs; a row already deleted is not found again. */
  function SpendInputs(coins: Coins, inputs: seq<Outpoint>, spent: nat): Result<(Coins, nat), Error> {
    if inputs == [] then Ok((coins, spent))
    else if inputs[0] !in coins then SpendInputs(coins, inputs[1..], spent)
    else if spent + coins[inputs[0]] > U64_MAX then Err(InputOverflow)
    else SpendInputs(coins - {inputs[0]}, inputs[1..], spent + coins[inputs[0]])
  }

  function OutputTotal(outputs: seq<Output>): nat {
    if outputs == [] then 0 else outputs[0].amount + OutputTotal(outputs[1..])
  }

  /** Inserts the new coins; an outpoint is a primary key. */
  function AddOutputs(coins: Coins, txid: nat, outputs: seq<Output>, height: nat): Result<Coins, Error>
    decreases |outputs|
  {
    if outputs == [] then Ok(coins)
    else
      var outpoint := Outpoint(txid, outputs[0].index);
      if !Storable(outputs[0].amount) || !Storable(height) || outpoint in coins then Err(Database)
      else AddOutputs(coins[outpoint := outputs[0].amount], txid, outputs[1..], height)
  }

  /** `CREDIT_SQL`: what a member owes comes off a credit first. */
  function Credit(accounts: Accounts, member: nat, amount: nat, height: nat): Result<Accounts, Error> {
    if !Storable(amount) || !Storable(height) then Err(Database)
    else if member !in accounts then Ok(accounts[member := Account(amount, 0, height, false, None, 0)])
    else
      var row := accounts[member];
      var credited := row.amount + if amount > row.deficit then amount - row.deficit else 0;
      if !Storable(credited) then Err(Database)
      else Ok(accounts[member := row.(amount := credited, height := height,
                                      deficit := if amount > row.deficit then 0 else row.deficit - amount)])
  }

  datatype Allocation = Allocation(member: nat, amount: nat)

  function CreditAll(accounts: Accounts, allocations: seq<Allocation>, height: nat): Result<Accounts, Error>
    decreases |allocations|
  {
    if allocations == [] then Ok(accounts)
    else
      var credited := Credit(accounts, allocations[0].member, allocations[0].amount, height);
      if credited.Err? then credited else CreditAll(credited.value, allocations[1..], height)
  }

  /** Equal shares, the first `amount % |members|` members receiving one more. */
  function EqualShares(members: seq<nat>, amount: nat): (shares: seq<Allocation>)
    requires members != []
    ensures |shares| == |members|
  {
    seq(|members|, i requires 0 <= i < |members| =>
      Allocation(members[i], amount / |members| + if i < amount % |members| then 1 else 0))
  }

  function Allocations(members: seq<nat>, tagged: Option<nat>, amount: nat): seq<Allocation>
    requires members != []
  {
    if tagged.Some? && tagged.value in members then [Allocation(tagged.value, amount)] else EqualShares(members, amount)
  }

  function CreditDeposit(accounts: Accounts, members: seq<nat>, tagged: Option<nat>, amount: nat,
                         height: nat): Result<Accounts, Error>
    requires members != []
  {
    if amount == 0 then Ok(accounts) else CreditAll(accounts, Allocations(members, tagged, amount), height)
  }

  /** An exchange confirmed on chain: overdraws become a deficit, and the member's lock ends. */
  function Debit(accounts: Accounts, member: nat, exchanged: nat, height: nat): Result<Accounts, Error> {
    var amount := if member in accounts then accounts[member].amount else 0;
    var deficit := (if member in accounts then accounts[member].deficit else 0) + SaturatingSub(exchanged, amount);
    var left := SaturatingSub(amount, exchanged);
    if deficit > U64_MAX then Err(DeficitOverflow)
    else if !Storable(left) || !Storable(height) || !Storable(deficit) then Err(Database)
    else Ok(accounts[member := Account(left, deficit, height, false, None, 0)])
  }

  /** What the ledger accounts for. */
  datatype Ledger = Ledger(accounts: Accounts, coins: Coins)

  function TransactionStep(ledger: Ledger, tx: TreasuryTransaction, members: seq<nat>, height: nat): Result<Ledger,
                           Error>
    requires members != []
  {
    var spending :- SpendInputs(ledger.coins, tx.inputs, 0);
    var spent := spending.1;
    var output := OutputTotal(tx.outputs);
    if output > U64_MAX then Err(OutputOverflow)
    else
      var coins :- AddOutputs(spending.0, tx.txid, tx.outputs, height);
      if spent == 0 then
        var accounts :- CreditDeposit(ledger.accounts, members, tx.depositMember, output, height);
        Ok(Ledger(accounts, coins))
      else if tx.exchangeMember.None? then Err(NoMemberMarker)
      else if tx.exchangeMember.value !in members then Err(NonMember)
      else if output > spent then Err(IncreasesTreasury)
      else
        var accounts :- Debit(ledger.accounts, tx.exchangeMember.value, spent - output, height);
        Ok(Ledger(accounts, coins))
  }

  function TransactionSteps(ledger: Ledger, txs: seq<TreasuryTransaction>, members: seq<nat>,
                            height: nat): Result<Ledger, Error>
    requires members != []
    decreases |txs|
  {
    if txs == [] then Ok(ledger)
    else
      var next := TransactionStep(ledger, txs[0], members, height);
      if next.Err? then next else TransactionSteps(next.value, txs[1..], members, height)
  }

  function BlockStep(ledger: Ledger, txs: seq<TreasuryTransaction>, members: seq<nat>, height: nat): Result<Ledger,
                     Error> {
    if members == [] then Err(NoMembers)
    else
      KeepsNonEmpty(members);
      TransactionSteps(ledger, txs, CanonicalKeys(members), height)
  }

  lemma KeepsNonEmpty(members: seq<nat>)
    requires members != []
    ensures CanonicalKeys(members) != []
  {
    assert members[0] in ToSet(CanonicalKeys(members));
  }

  // ----- Locks and recovery -----

  function Lock(accounts: Accounts, member: nat, amount: nat, height: nat, transaction: seq<Byte>): Result<(Accounts,
                bool), Error> {
    if !Storable(height) || !Storable(amount) then Err(Database)
    else if
      && member in accounts && accounts[member].amount >= amount
      && (!accounts[member].locked
          || (accounts[member].lastTx == Some(transaction) && accounts[member].exchangeAmount == amount))
    then Ok((accounts[member := accounts[member].(height := height, locked := true, lastTx := Some(transaction),
        exchangeAmount := amount)], true))
    else Ok((accounts, false))
  }

  function Unlock(accounts: Accounts, member: nat, height: nat): Result<Accounts, Error> {
    if !Storable(height) then Err(Database)
    else if member in accounts
        then Ok(accounts[member := accounts[member].(height := height, locked := false, lastTx := None,
        exchangeAmount := 0)])
    else Ok(accounts)
  }

  function UpdateLocked(accounts: Accounts, member: nat, expected: seq<Byte>, transaction: seq<Byte>): (Accounts,
                        bool) {
    if member in accounts && accounts[member].locked && accounts[member].lastTx == Some(expected)
    then (accounts[member := accounts[member].(lastTx := Some(transaction))], true)
    else (accounts, false)
  }

  predicate HoldsLock(accounts: Accounts, member: nat) {
    member in accounts && accounts[member].locked && accounts[member].lastTx.Some?
  }

  function LockOf(accounts: Accounts, member: nat): PendingLock
    requires HoldsLock(accounts, member)
  {
    PendingLock(member, accounts[member].exchangeAmount, accounts[member].height, accounts[member].lastTx.value)
  }

  /** Locks held now join those already set aside, which win. */
  function Captured(accounts: Accounts, pending: map<nat, PendingLock>): map<nat, PendingLock> {
    map member | member in accounts.Keys + pending.Keys && (member in pending || HoldsLock(accounts, member)) ::
      if member in pending then pending[member] else LockOf(accounts, member)
  }

  function Listed(pending: map<nat, PendingLock>, members: seq<nat>): seq<PendingLock>
    requires forall member | member in members :: member in pending
  {
    if members == [] then [] else [pending[members[0]]] + Listed(pending, members[1..])
  }

  lemma {:induction false} ListedElements(pending: map<nat, PendingLock>, members: seq<nat>, lock: PendingLock)
    requires forall member | member in members :: member in pending
    ensures lock in Listed(pending, members) <==> exists member :: member in members && pending[member] == lock
  {
    if members != [] {
      ListedElements(pending, members[1..], lock);
      assert members == [members[0]] + members[1..];
    }
  }

  /** `ORDER BY xonly_pubkey` */
  function InOrder(pending: map<nat, PendingLock>): seq<PendingLock> {
    Listed(pending, Ordered(pending.Keys, KeyLe))
  }

  lemma InOrderElements(pending: map<nat, PendingLock>, lock: PendingLock)
    ensures lock in InOrder(pending) <==> exists member :: member in pending && pending[member] == lock
  {
    ListedElements(pending, Ordered(pending.Keys, KeyLe), lock);
    assert forall member :: member in Ordered(pending.Keys, KeyLe) <==> member in pending.Keys;
  }

  // ----- The store -----

  datatype Store = Store(ledger: Ledger, pending: map<nat, PendingLock>)

  const EMPTY := Store(Ledger(map[], map[]), map[])

  /** The tables behind one connection. */
  class DropletStore {
    var accounts: Accounts
    var coins: Coins
    var pending: map<nat, PendingLock>

    constructor ()
      ensures Contents() == EMPTY
    {
      accounts := map[];
      coins := map[];
      pending := map[];
    }

    function Contents(): Store
      reads this
    {
      Store(Ledger(accounts, coins), pending)
    }

    /** Inside the database transaction: on an error the tables are left for the rollback. */
    method SpendAll(inputs: seq<Outpoint>) returns (r: Result<nat, Error>)
      modifies this`coins
      ensures r.Err? ==> SpendInputs(old(coins), inputs, 0) == Err(r.error)
      ensures r.Ok? ==> SpendInputs(old(coins), inputs, 0) == Ok((coins, r.value))
    {
      var spent: nat := 0;
      for i := 0 to |inputs|
        invariant SpendInputs(old(coins), inputs, 0) == SpendInputs(coins, inputs[i..], spent)
      {
        assert inputs[i..][1..] == inputs[i + 1..];
        if inputs[i] in coins {
          if spent + coins[inputs[i]] > U64_MAX {
            return Err(InputOverflow);
          }
          spent := spent + coins[inputs[i]];
          coins := coins - {inputs[i]};
        }
      }
      return Ok(spent);
    }

    method AddCoins(txid: nat, outputs: seq<Output>, height: nat) returns (r: Result<Unit, Error>)
      modifies this`coins
      ensures r.Err? ==> AddOutputs(old(coins), txid, outputs, height) == Err(r.error)
      ensures r.Ok? ==> AddOutputs(old(coins), txid, outputs, height) == Ok(coins)
    {
      for i := 0 to |outputs|
        invariant AddOutputs(old(coins), txid, outputs, height) == AddOutputs(coins, txid, outputs[i..], height)
      {
        assert outputs[i..][1..] == outputs[i + 1..];
        var outpoint := Outpoint(txid, outputs[i].index);
        if !Storable(outputs[i].amount) || !Storable(height) || outpoint in coins {
          return Err(Database);
        }
        coins := coins[outpoint := outputs[i].amount];
      }
      return Ok(Unit);
    }

    method CreditMembers(members: seq<nat>, tagged: Option<nat>, amount: nat, height: nat)
        returns (r: Result<Unit, Error>)
      requires members != []
      modifies this`accounts
      ensures r.Err? ==> CreditDeposit(old(accounts), members, tagged, amount, height) == Err(r.error)
      ensures r.Ok? ==> CreditDeposit(old(accounts), members, tagged, amount, height) == Ok(accounts)
    {
      if amount == 0 {
        return Ok(Unit);
      }
      var allocations := Allocations(members, tagged, amount);
      for i := 0 to |allocations|
        invariant CreditAll(old(accounts), allocations, height) == CreditAll(accounts, allocations[i..], height)
      {
        assert allocations[i..][1..] == allocations[i + 1..];
        var credited := Credit(accounts, allocations[i].member, allocations[i].amount, height);
        if credited.Err? {
          return Err(credited.error);
        }
        accounts := credited.value;
      }
      return Ok(Unit);
    }

    method Apply(tx: TreasuryTransaction, members: seq<nat>, height: nat) returns (r: Result<Unit, Error>)
      requires members != []
      modifies this`accounts, this`coins
      ensures r.Err? ==> TransactionStep(old(Contents()).ledger, tx, members, height) == Err(r.error)
      ensures r.Ok? ==> TransactionStep(old(Contents()).ledger, tx, members, height) == Ok(Contents().ledger)
    {
      var spent :- SpendAll(tx.inputs);
      var output := CheckedTotal(tx.outputs);
      if output.None? {
        return Err(OutputOverflow);
      }
      var _ :- AddCoins(tx.txid, tx.outputs, height);
      if spent == 0 {
        r := CreditMembers(members, tx.depositMember, output.value, height);
        return;
      }
      if tx.exchangeMember.None? {
        return Err(NoMemberMarker);
      }
      if tx.exchangeMember.value !in members {
        return Err(NonMember);
      }
      if output.value > spent {
        return Err(IncreasesTreasury);
      }
      var debited := Debit(accounts, tx.exchangeMember.value, spent - output.value, height);
      if debited.Err? {
        return Err(debited.error);
      }
      accounts := debited.value;
      return Ok(Unit);
    }

    /** A block is one database transaction: a rejected block changes nothing. */
    method ApplyBlock(txs: seq<TreasuryTransaction>, members: seq<nat>, height: nat) returns (r: Result<Unit, Error>)
      modifies this
      ensures r.Ok? ==> BlockStep(old(Contents()).ledger, txs, members, height) == Ok(Contents().ledger)
      ensures r.Err? ==> BlockStep(old(Contents()).ledger, txs, members, height) == Err(r.error)
      ensures r.Err? ==> Contents() == old(Contents())
      ensures pending == old(pending)
    {
      if members == [] {
        return Err(NoMembers);
      }
      KeepsNonEmpty(members);
      var canonical := CanonicalKeys(members);
      var savedAccounts, savedCoins := accounts, coins;
      for i := 0 to |txs|
        invariant pending == old(pending)
        invariant TransactionSteps(old(Contents()).ledger, txs, canonical, height)
               == TransactionSteps(Contents().ledger, txs[i..], canonical, height)
      {
        assert txs[i..][1..] == txs[i + 1..];
        var applied := Apply(txs[i], canonical, height);
        if applied.Err? {
          accounts, coins := savedAccounts, savedCoins;
          return applied;
        }
      }
      return Ok(Unit);
    }

    method LockExchange(member: nat, amount: nat, height: nat, transaction: seq<Byte>) returns (r: Result<bool, Error>)
      modifies this`accounts
      ensures match Lock(old(accounts), member, amount, height, transaction)
              case Ok(locked) => accounts == locked.0 && r == Ok(locked.1)
              case Err(e) => accounts == old(accounts) && r == Err(e)
    {
      if !Storable(height) || !Storable(amount) {
        return Err(Database);
      }
      if member in accounts {
        var row := accounts[member];
        if row.amount >= amount && (!row.locked || (row.lastTx == Some(transaction) && row.exchangeAmount == amount)) {
          accounts := accounts[member := row.(height := height, locked := true, lastTx := Some(transaction),
              exchangeAmount := amount)];
          return Ok(true);
        }
      }
      return Ok(false);
    }

    method UnlockExchange(member: nat, height: nat) returns (r: Result<Unit, Error>)
      modifies this`accounts
      ensures match Unlock(old(accounts), member, height)
              case Ok(unlocked) => accounts == unlocked && r == Ok(Unit)
              case Err(e) => accounts == old(accounts) && r == Err(e)
    {
      if !Storable(height) {
        return Err(Database);
      }
      if member in accounts {
        accounts := accounts[member := accounts[member].(height := height, locked := false, lastTx := None,
            exchangeAmount := 0)];
      }
      return Ok(Unit);
    }

    method UpdateLockedTransaction(member: nat, expected: seq<Byte>, transaction: seq<Byte>) returns (updated: bool)
      modifies this`accounts
      ensures (accounts, updated) == UpdateLocked(old(accounts), member, expected, transaction)
    {
      updated := member in accounts && accounts[member].locked && accounts[member].lastTx == Some(expected);
      if updated {
        accounts := accounts[member := accounts[member].(lastTx := Some(transaction))];
      }
    }

    /** A chain reset sets the held locks aside, empties the projections, and names every lock set aside so far. */
    method ResetProjections() returns (locks: seq<PendingLock>)
      modifies this
      ensures Contents() == Store(EMPTY.ledger, Captured(old(accounts), old(pending)))
      ensures locks == InOrder(pending)
    {
      pending := Captured(accounts, pending);
      locks := InOrder(pending);
      coins := map[];
      accounts := map[];
    }

    method FinishRecovery()
      modifies this`pending
      ensures pending == map[]
    {
      pending := map[];
    }
  }

  /** The checked fold of the output amounts. */
  method CheckedTotal(outputs: seq<Output>) returns (total: Option<nat>)
    ensures total == if OutputTotal(outputs) > U64_MAX then None else Some(OutputTotal(outputs))
  {
    var sum: nat := 0;
    for i := 0 to |outputs|
      invariant sum <= U64_MAX
      invariant OutputTotal(outputs) == sum + OutputTotal(outputs[i..])
    {
      assert outputs[i..][1..] == outputs[i + 1..];
      sum := sum + outputs[i].amount;
      if sum > U64_MAX {
        return None;
      }
    }
    return Some(sum);
  }
}
