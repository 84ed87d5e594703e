/**
 * high-storm/src/high_storm/indexer/mod.rs: what the indexer reads off a transaction, and what the ledger then
 * debits.
 */
module ExchangeLedger {
  import opened Prelude
  import opened Sorting
  import opened MemberMarkers
  import opened Ledgers
  import opened LedgerBooks
  import B = ExchangeBuilder
  import E = Exchanges

  /** Explicit policy-asset outputs to the Treasury, with their positions. */
  function TreasuryOutputs(outputs: seq<E.TxOut>, cov: E.Covenant, index: nat): seq<Output> {
    if outputs == [] then []
    else
      (if outputs[0].script == cov.treasury && outputs[0].asset == E.Explicit(cov.policyAsset)
          && outputs[0].value.Explicit?
       then [Output(index, outputs[0].value.amount)] else [])
      + TreasuryOutputs(outputs[1..], cov, index + 1)
  }

  /** The member a script names, as an exchange marker or as the proposer of a migration. */
  function NamedMember(script: Script): Option<nat> {
    var member := MemberFromScript(script);
    if member.Some? then member else MigratedMembersProposerFromScript(script)
  }

  function NamedMembers(outputs: seq<E.TxOut>): set<nat> {
    set output | output in outputs && NamedMember(output.script).Some? :: NamedMember(output.script).value
  }

  /** The one member all markers agree on. */
  ghost function ExchangeMember(outputs: seq<E.TxOut>): Option<nat> {
    if |NamedMembers(outputs)| == 1 then
      var member :| member in NamedMembers(outputs);
      Some(member)
    else None
  }

  /** The marker right after the first Treasury output that has one there. */
  function DepositMember(outputs: seq<E.TxOut>, deposits: seq<Output>): Option<nat> {
    if deposits == [] then None
    else
      var next := deposits[0].index + 1;
      if next < |outputs| && MemberFromScript(outputs[next].script).Some? then MemberFromScript(outputs[next].script)
      else DepositMember(outputs, deposits[1..])
  }

  function TxOutsOf(outputs: seq<E.PsetOutput>): seq<E.TxOut> {
    if outputs == [] then [] else [outputs[0].ToTxOut()] + TxOutsOf(outputs[1..])
  }

  function OutpointsOf(inputs: seq<E.PsetInput>): seq<Outpoint> {
    if inputs == [] then [] else [inputs[0].outpoint] + OutpointsOf(inputs[1..])
  }

  /** `treasury_transactions`, for the confirmed form of a PSET. */
  ghost function Indexed(txid: nat, pset: E.Pset, cov: E.Covenant): TreasuryTransaction {
    var outputs := TxOutsOf(pset.outputs);
    var deposits := TreasuryOutputs(outputs, cov, 0);
    TreasuryTransaction(txid, OutpointsOf(pset.inputs), deposits, DepositMember(outputs, deposits),
        ExchangeMember(outputs))
  }

  // ----- The value taken is the amount validated -----

  lemma {:induction false} ReturnedIsChange(outputs: seq<E.PsetOutput>, cov: E.Covenant, member: nat, index: nat)
    requires cov.treasury.Other? && forall output | output in outputs :: E.Pays(output, cov, member)
    ensures OutputTotal(TreasuryOutputs(TxOutsOf(outputs), cov, index)) == E.AmountIn(outputs, cov.treasury, E.Change)
  {
    if outputs != [] {
      assert outputs[0] in outputs;
      ReturnedIsChange(outputs[1..], cov, member, index + 1);
      var rest := TreasuryOutputs(TxOutsOf(outputs[1..]), cov, index + 1);
      var first := Output(index, E.AmountOf(outputs[0]));
      assert ([first] + rest)[1..] == rest && [] + rest == rest;
      assert ([outputs[0].ToTxOut()] + TxOutsOf(outputs[1..]))[1..] == TxOutsOf(outputs[1..]);
    }
  }

  /** The ledger holds the exchange's funding coins, each once, at the values the PSET declares. */
  predicate Funded(coins: Coins, inputs: seq<E.PsetInput>) {
    && (forall input | input in inputs :: input.outpoint in coins && coins[input.outpoint] == E.ValueOf(input))
    && forall i, j | 0 <= i < j < |inputs| :: inputs[i].outpoint != inputs[j].outpoint
  }

  lemma {:induction false} SpentIsFunding(coins: Coins, inputs: seq<E.PsetInput>, spent: nat)
    requires Funded(coins, inputs) && spent + E.FundingTotal(inputs) <= U64_MAX
    ensures var r := SpendInputs(coins, OutpointsOf(inputs), spent);
            r.Ok? && r.value.1 == spent + E.FundingTotal(inputs)
    decreases |inputs|
  {
    if inputs != [] {
      var first, rest := inputs[0], inputs[1..];
      assert first in inputs;
      forall input | input in rest ensures input.outpoint != first.outpoint {
        var i :| 0 <= i < |rest| && rest[i] == input;
        assert inputs[i + 1] == input;
      }
      SpentIsFunding(coins - {first.outpoint}, rest, spent + E.ValueOf(first));
      assert ([first.outpoint] + OutpointsOf(rest))[1..] == OutpointsOf(rest);
    }
  }

  /**
   * A confirmed valid exchange is recorded exactly when it is recordable, and it then moves the marked member's
   * balance by exactly the validated amount, and nobody else's.
   */
  lemma DebitIsValidatedAmount(ledger: Ledger, txid: nat, pset: E.Pset, cov: E.Covenant, member: nat, members: seq<nat>,
                               height: nat)
    requires Sound(ledger.accounts) && members != []
    requires cov.treasury.Other? && cov.eyeAsset != cov.policyAsset
    requires E.ValidLayout(pset, cov, member)
    requires pset.inputs[0].outpoint !in ledger.coins && Funded(ledger.coins, pset.inputs[1..])
    ensures BalancesAfter(ledger, Indexed(txid, pset, cov), members, height)
         == Debited(ledger, Indexed(txid, pset, cov), member, members, E.Exchanged(pset, cov), height)
  {
    var tx := Indexed(txid, pset, cov);
    var spent := IndexedFacts(ledger.coins, tx, pset, cov, member);
    SpendIsDebit(ledger, tx, member, members, spent, E.Exchanged(pset, cov), height);
  }

  /** What the ledger sees of a valid exchange: the value that goes, what comes back, and at most the one member. */
  lemma IndexedFacts(coins: Coins, tx: TreasuryTransaction, pset: E.Pset, cov: E.Covenant, member: nat)
    returns (spent: nat)
    requires tx == Indexed(tx.txid, pset, cov)
    requires cov.treasury.Other? && cov.eyeAsset != cov.policyAsset && E.ValidLayout(pset, cov, member)
    requires pset.inputs[0].outpoint !in coins && Funded(coins, pset.inputs[1..])
    ensures SpendInputs(coins, tx.inputs, 0) == Ok((coins - ToSet(tx.inputs), spent))
    ensures OutputTotal(tx.outputs) < spent <= U64_MAX && spent - OutputTotal(tx.outputs) == E.Exchanged(pset, cov)
    ensures tx.exchangeMember.None? || tx.exchangeMember == Some(member)
    ensures tx.exchangeMember == ExchangeMember(TxOutsOf(pset.outputs))
  {
    spent := E.FundingTotal(pset.inputs[1..]);
    IndexedSpends(coins, pset, cov, member);
    IndexedReturns(pset, cov, member);
    IndexerNamesNobodyElse(pset, cov, member);
  }

  lemma IndexedSpends(coins: Coins, pset: E.Pset, cov: E.Covenant, member: nat)
    requires E.ValidLayout(pset, cov, member)
    requires pset.inputs[0].outpoint !in coins && Funded(coins, pset.inputs[1..])
    ensures SpendInputs(coins, OutpointsOf(pset.inputs), 0)
         == Ok((coins - ToSet(OutpointsOf(pset.inputs)), E.FundingTotal(pset.inputs[1..])))
  {
    StormEyeIsNotSpent(coins, pset);
    SpentIsFunding(coins, pset.inputs[1..], 0);
    InputsCountOnce(coins, OutpointsOf(pset.inputs), 0);
  }

  lemma IndexedReturns(pset: E.Pset, cov: E.Covenant, member: nat)
    requires cov.treasury.Other? && cov.eyeAsset != cov.policyAsset && E.ValidLayout(pset, cov, member)
    ensures var returned := OutputTotal(TreasuryOutputs(TxOutsOf(pset.outputs), cov, 0));
            returned < E.FundingTotal(pset.inputs[1..]) <= U64_MAX
                && E.FundingTotal(pset.inputs[1..]) - returned == E.Exchanged(pset, cov)
  {
    ReturnedIsChangeOfAll(pset, cov, member);
    E.ExchangePaysRecipientsAndFees(pset, cov, member);
  }

  lemma StormEyeIsNotSpent(coins: Coins, pset: E.Pset)
    requires pset.inputs != [] && pset.inputs[0].outpoint !in coins
    ensures SpendInputs(coins, OutpointsOf(pset.inputs), 0) == SpendInputs(coins, OutpointsOf(pset.inputs[1..]), 0)
  {
    var rest := OutpointsOf(pset.inputs[1..]);
    assert ([pset.inputs[0].outpoint] + rest)[1..] == rest;
  }

  lemma ReturnedIsChangeOfAll(pset: E.Pset, cov: E.Covenant, member: nat)
    requires cov.treasury.Other? && cov.eyeAsset != cov.policyAsset && E.ValidLayout(pset, cov, member)
    ensures OutputTotal(TreasuryOutputs(TxOutsOf(pset.outputs), cov, 0))
            == E.AmountIn(pset.outputs[1..], cov.treasury, E.Change)
  {
    ReturnedIsChange(pset.outputs[1..], cov, member, 1);
    var first, rest := pset.outputs[0].ToTxOut(), TxOutsOf(pset.outputs[1..]);
    assert ([first] + rest)[1..] == rest;
    assert [] + TreasuryOutputs(rest, cov, 1) == TreasuryOutputs(rest, cov, 1);
  }

  // ----- When the ledger sees the marker -----

  lemma {:induction false} HasMarker(outputs: seq<E.PsetOutput>, cov: E.Covenant, member: nat)
    requires E.CountOf(outputs, cov.treasury, E.Marker) > 0 && forall output | output in outputs ::
             E.Pays(output, cov, member)
    ensures exists output :: output in outputs && MemberFromScript(output.script) == Some(member)
  {
    if E.KindOf(outputs[0].script, cov.treasury) != E.Marker {
      HasMarker(outputs[1..], cov, member);
    } else {
      assert outputs[0] in outputs;
    }
  }

  lemma {:induction false} SameScripts(outputs: seq<E.PsetOutput>)
    ensures forall output | output in outputs :: output.ToTxOut() in TxOutsOf(outputs)
    ensures forall out | out in TxOutsOf(outputs) :: exists output :: output in outputs && output.ToTxOut() == out
  {
    if outputs != [] {
      SameScripts(outputs[1..]);
      assert outputs == [outputs[0]] + outputs[1..];
    }
  }

  lemma Singleton(s: set<nat>, x: nat)
    requires x in s
    ensures |s| == 1 <==> forall y | y in s :: y == x
  {
    if forall y | y in s :: y == x {
      assert s == {x};
    }
    if |s| == 1 {
      assert |s - {x}| == 0;
      assert s == {x};
    }
  }

  /**
   * Validation looks at exchange markers only, the indexer also at migration markers: the indexer names the
   * validated member exactly when no output of the exchange names anyone else.
   */
  lemma IndexerNamesTheMember(pset: E.Pset, cov: E.Covenant, member: nat)
    requires E.ValidLayout(pset, cov, member)
    ensures ExchangeMember(TxOutsOf(pset.outputs)) == Some(member) <==>
              forall output | output in pset.outputs ::
                  NamedMember(output.script).None? || NamedMember(output.script) == Some(member)
  {
    var outs := TxOutsOf(pset.outputs);
    SameScripts(pset.outputs);
    HasMarker(pset.outputs[1..], cov, member);
    var marker :| marker in pset.outputs[1..] && MemberFromScript(marker.script) == Some(member);
    assert marker in pset.outputs && marker.ToTxOut() in outs && NamedMember(marker.ToTxOut().script) == Some(member);
    assert member in NamedMembers(outs);
    Singleton(NamedMembers(outs), member);
    if output :|
      output in pset.outputs && NamedMember(output.script).Some? && NamedMember(output.script) != Some(member)
    {
      assert output.ToTxOut() in outs && NamedMember(output.script).value in NamedMembers(outs);
    }
  }

  lemma IndexerNamesNobodyElse(pset: E.Pset, cov: E.Covenant, member: nat)
    requires E.ValidLayout(pset, cov, member)
    ensures ExchangeMember(TxOutsOf(pset.outputs)) == Some(member) || ExchangeMember(TxOutsOf(pset.outputs)).None?
  {
    var outs := TxOutsOf(pset.outputs);
    SameScripts(pset.outputs);
    HasMarker(pset.outputs[1..], cov, member);
    var marker :| marker in pset.outputs[1..] && MemberFromScript(marker.script) == Some(member);
    assert marker in pset.outputs && marker.ToTxOut() in outs && NamedMember(marker.ToTxOut().script) == Some(member);
    assert member in NamedMembers(outs);
    Singleton(NamedMembers(outs), member);
  }

  /** A confirmed valid exchange stops the ledger for want of a marker exactly when an output names somebody else. */
  lemma ForeignMarkerStopsTheLedger(ledger: Ledger, txid: nat, pset: E.Pset, cov: E.Covenant, member: nat,
                                    members: seq<nat>, height: nat)
    requires members != [] && cov.treasury.Other? && cov.eyeAsset != cov.policyAsset
    requires E.ValidLayout(pset, cov, member)
    requires pset.inputs[0].outpoint !in ledger.coins && Funded(ledger.coins, pset.inputs[1..])
    requires var tx := Indexed(txid, pset, cov);
             AddOutputs(ledger.coins - ToSet(tx.inputs), txid, tx.outputs, height).Ok?
    ensures TransactionStep(ledger, Indexed(txid, pset, cov), members, height) == Err(NoMemberMarker) <==>
              exists output :: output in pset.outputs && NamedMember(output.script).Some?
                  && NamedMember(output.script) != Some(member)
  {
    var tx := Indexed(txid, pset, cov);
    var spent := IndexedFacts(ledger.coins, tx, pset, cov, member);
    IndexerNamesTheMember(pset, cov, member);
    DebitHasMarker(ledger, tx, members, spent, height);
  }

  lemma DebitHasMarker(ledger: Ledger, tx: TreasuryTransaction, members: seq<nat>, spent: nat, height: nat)
    requires members != [] && OutputTotal(tx.outputs) < spent <= U64_MAX
    requires SpendInputs(ledger.coins, tx.inputs, 0) == Ok((ledger.coins - ToSet(tx.inputs), spent))
    requires AddOutputs(ledger.coins - ToSet(tx.inputs), tx.txid, tx.outputs, height).Ok?
    ensures TransactionStep(ledger, tx, members, height) == Err(NoMemberMarker) <==> tx.exchangeMember.None?
  {
  }

  // ----- Such an exchange -----

  const COVENANT := E.Covenant(1, Other(1), 2, Other(0))

  /** The migration marker of a network whose one member proposes it. */
  function MigrationOf(other: nat): Script
    requires IsKey(other)
  {
    var printed := PrintedScript([other], MIGRATED_MEMBERS_VERSION, Some(other));
    if printed.Ok? then printed.value else Empty
  }

  lemma MigrationNames(other: nat)
    requires IsKey(other)
    ensures MigrationOf(other).OpReturn? && MemberFromScript(MigrationOf(other)).None?
    ensures NamedMember(MigrationOf(other)) == Some(other)
  {
    var keys := CanonicalKeys([other]);
    assert ToSet([other]) == {other};
    AscendingMultiset(keys);
    MigratedRoundTrips([other], other);
    MarkersAreApart(MigrationOf(other));
  }

  /** What the builder pays for five units without a fee, and the migration marker of somebody else. */
  function TwoPayments(member: nat, other: nat): seq<E.PsetOutput>
    requires IsKey(member) && IsKey(other)
  {
    B.Payments(COVENANT, Other(2), 5, 0, member, 0) + [B.Plain(MigrationOf(other), 0, COVENANT.policyAsset)]
  }

  function TwoMarkers(member: nat, other: nat): E.Pset
    requires IsKey(member) && IsKey(other)
  {
    E.Pset([EyeCoin().Spent(), FundingCoin().Spent()],
           [B.Plain(COVENANT.eyeScript, 1, COVENANT.eyeAsset)] + TwoPayments(member, other))
  }

  function EyeCoin(): B.Utxo {
    B.Utxo(Outpoint(0, 0), COVENANT.eyeScript, COVENANT.eyeAsset, 1)
  }

  function FundingCoin(): B.Utxo {
    B.Utxo(Outpoint(1, 0), COVENANT.treasury, COVENANT.policyAsset, 5)
  }

  lemma TwoPaymentsPay(member: nat, other: nat)
    requires IsKey(member) && IsKey(other)
    ensures forall output | output in TwoPayments(member, other) ::
              E.Pays(output, COVENANT, member) && output.script != COVENANT.treasury
  {
    MigrationNames(other);
    B.PaymentsPay(COVENANT, Other(2), 5, 0, member, 0);
  }

  lemma TwoPaymentsSum(member: nat, other: nat, kind: E.Kind)
    requires IsKey(member) && IsKey(other)
    ensures var outputs, treasury := TwoPayments(member, other), COVENANT.treasury;
            && E.TotalOut(outputs) == 5
            && (kind == E.Marker ==> E.CountOf(outputs, treasury, kind) == 1)
            && (kind == E.Recipient ==> E.AmountIn(outputs, treasury, kind) == 5)
  {
    var built := B.Payments(COVENANT, Other(2), 5, 0, member, 0);
    var foreign := B.Plain(MigrationOf(other), 0, COVENANT.policyAsset);
    MigrationNames(other);
    B.PaymentTotal(COVENANT, Other(2), 5, 0, member, 0);
    B.PaymentSums(COVENANT, Other(2), 5, 0, member, 0, kind);
    B.SumsAppend(built, [foreign], COVENANT.treasury, kind);
    B.TotalOutAppend(built, [foreign]);
    B.OneOutput(foreign, COVENANT.treasury, kind);
  }

  lemma TwoMarkersIsValid(member: nat, other: nat)
    requires IsKey(member) && IsKey(other)
    ensures E.ValidLayout(TwoMarkers(member, other), COVENANT, member)
  {
    var pset := TwoMarkers(member, other);
    TwoPaymentsPay(member, other);
    TwoPaymentsSum(member, other, E.Marker);
    TwoPaymentsSum(member, other, E.Recipient);
    TwoMarkersShape(member, other);
  }

  lemma TwoMarkersShape(member: nat, other: nat)
    requires IsKey(member) && IsKey(other)
    ensures var pset := TwoMarkers(member, other);
            && |pset.outputs| >= 3 && pset.outputs[1..] == TwoPayments(member, other)
                && E.StormEyePreserved(pset, COVENANT)
            && pset.inputs[0].outpoint == Outpoint(0, 0) && pset.inputs[1..] == [FundingCoin().Spent()]
            && E.Funds(FundingCoin().Spent(), COVENANT) && E.FundingTotal([FundingCoin().Spent()]) == 5
  {
    assert [FundingCoin().Spent()][1..] == [];
  }

  lemma {:induction false} NoChange(outputs: seq<E.PsetOutput>, index: nat)
    requires forall output | output in outputs :: output.script != COVENANT.treasury
    ensures TreasuryOutputs(TxOutsOf(outputs), COVENANT, index) == []
  {
    if outputs != [] {
      NoChange(outputs[1..], index + 1);
      assert ([outputs[0].ToTxOut()] + TxOutsOf(outputs[1..]))[1..] == TxOutsOf(outputs[1..]);
    }
  }

  /** A member deposits the five units that the exchange spends. */
  function Deposit(member: nat): TreasuryTransaction {
    TreasuryTransaction(1, [], [Output(0, 5)], Some(member), None)
  }

  /** The ledger after the block that confirms the deposit. */
  function Deposited(member: nat, height: nat): Ledger {
    Run(EMPTY, [Block([Deposit(member)], [member], height)]).ledger
  }

  lemma DepositIsRecorded(member: nat, members: seq<nat>, height: nat)
    requires Storable(height) && member in members
    ensures TransactionStep(EMPTY.ledger, Deposit(member), members, height)
         == Ok(Ledger(map[member := Account(5, 0, height, false, None, 0)], map[Outpoint(1, 0) := 5]))
  {
    var output := Output(0, 5);
    assert [output][1..] == [] && OutputTotal([output]) == 5;
    assert AddOutputs(map[], 1, [output], height) == Ok(map[Outpoint(1, 0) := 5]);
    var share := Allocation(member, 5);
    assert [share][1..] == [];
    assert CreditAll(map[], [share], height) == Ok(map[member := Account(5, 0, height, false, None, 0)]);
  }

  lemma DepositedHolds(member: nat, height: nat)
    requires Storable(height)
    ensures Deposited(member, height).coins == map[Outpoint(1, 0) := 5]
  {
    var block := Block([Deposit(member)], [member], height);
    KeepsNonEmpty([member]);
    assert member in ToSet(CanonicalKeys([member]));
    DepositIsRecorded(member, CanonicalKeys([member]), height);
    var txs, blocks := [Deposit(member)], [block];
    assert txs[0] == Deposit(member) && txs[1..] == [] && blocks[0] == block && blocks[1..] == [];
    var recorded := Ledger(map[member := Account(5, 0, height, false, None, 0)], map[Outpoint(1, 0) := 5]);
    assert TransactionSteps(EMPTY.ledger, txs, CanonicalKeys([member]), height) == Ok(recorded);
    assert BlockStep(EMPTY.ledger, txs, [member], height) == Ok(recorded);
    assert Run(EMPTY, blocks) == Run(Step(EMPTY, block), []) == EMPTY.(ledger := recorded);
  }

  /** In a reachable ledger: the exchange passes validation, and the block that confirms it is refused. */
  lemma ValidExchangeStopsTheLedger(member: nat, other: nat, height: nat, later: nat)
    requires IsKey(member) && IsKey(other) && member != other && Storable(height)
    ensures var pset := TwoMarkers(member, other);
            && E.ValidLayout(pset, COVENANT, member)
            && Funded(Deposited(member, height).coins, pset.inputs[1..])
            && ExchangeMember(TxOutsOf(pset.outputs)).None?
            && BlockStep(Deposited(member, height), [Indexed(9, pset, COVENANT)], [member], later)
               == Err(NoMemberMarker)
  {
    TwoMarkersIsValid(member, other);
    TwoMarkersShape(member, other);
    TwoMarkersNameBoth(member, other);
    IndexerNamesTheMember(TwoMarkers(member, other), COVENANT, member);
    IndexerNamesNobodyElse(TwoMarkers(member, other), COVENANT, member);
    KeepsNonEmpty([member]);
    DepositedHolds(member, height);
    TwoMarkersAreRefused(Deposited(member, height), member, other, CanonicalKeys([member]), later);
  }

  lemma TwoMarkersAreRefused(ledger: Ledger, member: nat, other: nat, members: seq<nat>, height: nat)
    requires IsKey(member) && IsKey(other) && member != other && members != []
    requires ledger.coins == map[Outpoint(1, 0) := 5]
    ensures TransactionStep(ledger, Indexed(9, TwoMarkers(member, other), COVENANT), members, height)
         == Err(NoMemberMarker)
  {
    TwoMarkersIsValid(member, other);
    TwoMarkersNameBoth(member, other);
    NoChangeBack(member, other);
    TwoMarkersShape(member, other);
    ForeignMarkerStopsTheLedger(ledger, 9, TwoMarkers(member, other), COVENANT, member, members, height);
  }

  lemma NoChangeBack(member: nat, other: nat)
    requires IsKey(member) && IsKey(other)
    ensures Indexed(9, TwoMarkers(member, other), COVENANT).outputs == []
  {
    TwoPaymentsPay(member, other);
    NoChange(TwoMarkers(member, other).outputs, 0);
  }

  lemma TwoMarkersNameBoth(member: nat, other: nat)
    requires IsKey(member) && IsKey(other) && member != other
    ensures exists output :: output in TwoMarkers(member, other).outputs
                             && NamedMember(output.script).Some? && NamedMember(output.script) != Some(member)
  {
    var foreign := B.Plain(MigrationOf(other), 0, COVENANT.policyAsset);
    MigrationNames(other);
    assert foreign in TwoPayments(member, other);
    assert foreign in TwoMarkers(member, other).outputs;
  }

  // ----- From the builder to the ledger -----

  /** Every exchange the node builds, to any address but the Treasury's own, is attributed to its member. */
  lemma BuiltIsAttributed(pset: E.Pset, cov: E.Covenant, to: B.Address, amount: nat, member: nat, fee: nat)
    requires B.NodeBuilds(pset, cov, to, amount, member, fee)
    requires cov.treasury.Other? && cov.eyeScript.Other? && to.Script() != cov.treasury
    ensures E.ValidLayout(pset, cov, member) && E.Exchanged(pset, cov) == amount + fee
    ensures ExchangeMember(TxOutsOf(pset.outputs)) == Some(member)
  {
    var eye: B.Utxo, selected, indexed, chain :|
      B.BuiltFrom(pset, cov, to, amount, member, fee, eye, selected, indexed, chain);
    B.BuiltValidatesForAddresses(pset, cov, eye, selected, indexed, chain, to, amount, member, fee);
    BuiltNamesOnlyTheMember(pset, cov, eye, selected, to, amount, member, fee);
    IndexerNamesTheMember(pset, cov, member);
  }

  lemma BuiltNamesOnlyTheMember(pset: E.Pset, cov: E.Covenant, eye: B.Utxo, selected: seq<B.Utxo>, to: B.Address,
                                amount: nat, member: nat, fee: nat)
    requires IsKey(member) && cov.treasury.Other? && eye.script.Other? && amount + fee <= B.Total(selected)
    requires B.Built(pset, cov, eye, selected, to.Script(), amount, member, fee)
    ensures forall output | output in pset.outputs ::
              NamedMember(output.script).None? || NamedMember(output.script) == Some(member)
  {
    MemberMarkerIsExact(MemberScript(member), member);
    assert forall output | output in pset.outputs ::
        output.script.Other? || output.script == MemberScript(member) || output.script == Empty;
  }

  /** And once confirmed it costs the member exactly what was asked plus the fee, whenever it can be recorded at all. */
  lemma BuiltExchangeIsDebited(ledger: Ledger, tx: TreasuryTransaction, members: seq<nat>, height: nat, pset: E.Pset,
                               cov: E.Covenant, to: B.Address, amount: nat, member: nat, fee: nat, cost: nat)
    requires cost == amount + fee
    requires B.NodeBuilds(pset, cov, to, amount, member, fee)
    requires cov.treasury.Other? && cov.eyeScript.Other? && cov.eyeAsset != cov.policyAsset
    requires to.Script() != cov.treasury && Sound(ledger.accounts) && members != []
    requires tx == Indexed(tx.txid, pset, cov)
    requires pset.inputs != [] && pset.inputs[0].outpoint !in ledger.coins && Funded(ledger.coins, pset.inputs[1..])
    ensures BalancesAfter(ledger, tx, members, height) == Debited(ledger, tx, member, members, cost, height)
  {
    var spent := BuiltFacts(ledger.coins, tx, pset, cov, to, amount, member, fee);
    SpendIsDebit(ledger, tx, member, members, spent, cost, height);
  }

  lemma BuiltFacts(coins: Coins, tx: TreasuryTransaction, pset: E.Pset, cov: E.Covenant, to: B.Address, amount: nat,
                   member: nat, fee: nat) returns (spent: nat)
    requires B.NodeBuilds(pset, cov, to, amount, member, fee)
    requires cov.treasury.Other? && cov.eyeScript.Other? && cov.eyeAsset != cov.policyAsset
    requires to.Script() != cov.treasury && tx == Indexed(tx.txid, pset, cov)
    requires pset.inputs != [] && pset.inputs[0].outpoint !in coins && Funded(coins, pset.inputs[1..])
    ensures SpendInputs(coins, tx.inputs, 0) == Ok((coins - ToSet(tx.inputs), spent))
    ensures OutputTotal(tx.outputs) < spent <= U64_MAX && spent - OutputTotal(tx.outputs) == amount + fee
    ensures tx.exchangeMember == Some(member)
  {
    BuiltIsAttributed(pset, cov, to, amount, member, fee);
    spent := IndexedFacts(coins, tx, pset, cov, member);
  }
}
