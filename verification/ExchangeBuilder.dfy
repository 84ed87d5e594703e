/** high-storm/src/high_storm/droplets.rs: the exchange a node builds, and what validation makes of it. */
module ExchangeBuilder {
  import opened Prelude
  import opened MemberMarkers
  import Ledgers
  import opened Exchanges

  /** A coin as Elements reports it: always explicit. */
  datatype Utxo = Utxo(outpoint: Ledgers.Outpoint, script: Script, asset: nat, amount: nat) {
    function Spent(): PsetInput {
      PsetInput(outpoint, Some(TxOut(script, Explicit(asset), Explicit(amount))))
    }
  }

  /** A `treasury_utxos` row. */
  datatype Indexed = Indexed(outpoint: Ledgers.Outpoint, amount: nat)

  type Chain = map<Ledgers.Outpoint, Utxo>

  function Total(utxos: seq<Utxo>): nat {
    if utxos == [] then 0 else utxos[0].amount + Total(utxos[1..])
  }

  /** The indexed coins that are still unspent. */
  function Available(indexed: seq<Indexed>, chain: Chain): seq<Utxo> {
    if indexed == [] then []
    else (if indexed[0].outpoint in chain then [chain[indexed[0].outpoint]] else []) + Available(indexed[1..], chain)
  }

  predicate Matches(row: Indexed, chain: Chain, cov: Covenant) {
    row.outpoint in chain ==>
      && chain[row.outpoint].asset == cov.policyAsset && chain[row.outpoint].amount == row.amount
          && chain[row.outpoint].script == cov.treasury
  }

  /** Treasury coins worth at least `required`, none of them needless. */
  predicate Chosen(selected: seq<Utxo>, indexed: seq<Indexed>, chain: Chain, required: nat, cov: Covenant) {
    && selected != [] && selected <= Available(indexed, chain)
    && (forall utxo | utxo in selected :: utxo.asset == cov.policyAsset && utxo.script == cov.treasury)
    && required <= Total(selected) <= U64_MAX
    && Total(selected[..|selected| - 1]) < required
  }

  /** The first `k` rows are as Elements has them and hold enough. */
  predicate Covers(indexed: seq<Indexed>, k: nat, chain: Chain, required: nat, cov: Covenant)
    requires k <= |indexed|
  {
    && (forall row | row in indexed[..k] :: Matches(row, chain, cov))
    && required <= Total(Available(indexed[..k], chain)) <= U64_MAX
  }

  ghost predicate Coverable(indexed: seq<Indexed>, chain: Chain, required: nat, cov: Covenant) {
    exists k :: 0 <= k <= |indexed| && Covers(indexed, k, chain, required, cov)
  }

  lemma {:induction false} AvailableAppend(a: seq<Indexed>, b: seq<Indexed>, chain: Chain)
    ensures Available(a + b, chain) == Available(a, chain) + Available(b, chain)
  {
    if a == [] {
      assert a + b == b;
    } else {
      AvailableAppend(a[1..], b, chain);
      assert (a + b)[1..] == a[1..] + b && (a + b)[0] == a[0];
      var first := if a[0].outpoint in chain then [chain[a[0].outpoint]] else [];
      Associative(first, Available(a[1..], chain), Available(b, chain));
    }
  }

  lemma Associative<T>(a: seq<T>, b: seq<T>, c: seq<T>)
    ensures a + (b + c) == (a + b) + c
  {
  }

  lemma ShorterHoldsLess(indexed: seq<Indexed>, k: nat, m: nat, chain: Chain)
    requires k <= m <= |indexed|
    ensures Available(indexed[..k], chain) <= Available(indexed[..m], chain)
    ensures Total(Available(indexed[..k], chain)) <= Total(Available(indexed[..m], chain))
  {
    assert indexed[..m] == indexed[..k] + indexed[k..m];
    AvailableAppend(indexed[..k], indexed[k..m], chain);
    TotalOfPrefix(Available(indexed[..k], chain), Available(indexed[..m], chain));
  }

  /** The next row ends the selection: it is not as Elements has it, or takes the total out of the 64-bit range. */
  lemma StopsUncovered(indexed: seq<Indexed>, i: nat, chain: Chain, required: nat, cov: Covenant)
    requires i <= |indexed| && Total(Available(indexed[..i], chain)) < required
    requires i == |indexed| || !Matches(indexed[i], chain, cov) || Total(Available(indexed[..i + 1], chain)) > U64_MAX
    ensures !Coverable(indexed, chain, required, cov)
  {
    forall k | 0 <= k <= |indexed| ensures !Covers(indexed, k, chain, required, cov) {
      if k <= i {
        ShorterHoldsLess(indexed, k, i, chain);
      } else {
        ShorterHoldsLess(indexed, i + 1, k, chain);
        assert indexed[..k][i] == indexed[i];
      }
    }
  }

  lemma NextRow(indexed: seq<Indexed>, i: nat, chain: Chain)
    requires i < |indexed|
    ensures Available(indexed[..i + 1], chain)
         == Available(indexed[..i], chain) + if indexed[i].outpoint in chain then [chain[indexed[i].outpoint]] else []
  {
    assert indexed[..i + 1] == indexed[..i] + [indexed[i]];
    AvailableAppend(indexed[..i], [indexed[i]], chain);
    assert [indexed[i]][1..] == [];
  }

  lemma {:induction false} TotalAppend(utxos: seq<Utxo>, utxo: Utxo)
    ensures Total(utxos + [utxo]) == Total(utxos) + utxo.amount
  {
    if utxos == [] {
      assert [] + [utxo] == [utxo];
    } else {
      TotalAppend(utxos[1..], utxo);
      assert (utxos + [utxo])[1..] == utxos[1..] + [utxo];
    }
  }

  lemma {:induction false} TotalOfPrefix(utxos: seq<Utxo>, all: seq<Utxo>)
    requires utxos <= all
    ensures Total(utxos) <= Total(all)
  {
    if utxos != [] {
      assert utxos[1..] <= all[1..];
      TotalOfPrefix(utxos[1..], all[1..]);
    }
  }

  /** Accumulates coins in index order until they cover what is required. */
  method SelectFunding(indexed: seq<Indexed>, chain: Chain, required: nat, cov: Covenant)
      returns (r: Result<seq<Utxo>, Error>)
    requires required > 0
    ensures r.Ok? <==> Coverable(indexed, chain, required, cov)
    ensures r.Ok? ==> Chosen(r.value, indexed, chain, required, cov)
  {
    var selected: seq<Utxo> := [];
    var amount: nat := 0;
    for i := 0 to |indexed|
      invariant amount == Total(selected) < required && amount <= U64_MAX
      invariant selected == Available(indexed[..i], chain)
      invariant forall row | row in indexed[..i] :: Matches(row, chain, cov)
      invariant forall utxo | utxo in selected :: utxo.asset == cov.policyAsset && utxo.script == cov.treasury
    {
      NextRow(indexed, i, chain);
      assert indexed[..i + 1] == indexed[..i] + [indexed[i]];
      if indexed[i].outpoint !in chain {
        continue;
      }
      var utxo := chain[indexed[i].outpoint];
      if utxo.asset != cov.policyAsset || utxo.amount != indexed[i].amount || utxo.script != cov.treasury {
        StopsUncovered(indexed, i, chain, required, cov);
        return Err(Invalid);
      }
      TotalAppend(selected, utxo);
      amount := amount + utxo.amount;
      if amount > U64_MAX {
        StopsUncovered(indexed, i, chain, required, cov);
        return Err(Invalid);
      }
      ghost var before := selected;
      selected := selected + [utxo];
      assert selected[..|selected| - 1] == before;
      if amount >= required {
        assert Covers(indexed, i + 1, chain, required, cov);
        ShorterHoldsLess(indexed, i + 1, |indexed|, chain);
        assert indexed[..|indexed|] == indexed;
        return Ok(selected);
      }
    }
    StopsUncovered(indexed, |indexed|, chain, required, cov);
    return Err(Invalid);
  }

  function Plain(script: Script, amount: nat, asset: nat): PsetOutput {
    PsetOutput(script, Some(amount), Some(asset), None, None, false)
  }

  function Spending(utxos: seq<Utxo>): seq<PsetInput> {
    if utxos == [] then [] else [utxos[0].Spent()] + Spending(utxos[1..])
  }

  /** Recipient, change if any, the member's marker, the fee. */
  function Payments(cov: Covenant, destination: Script, amount: nat, change: nat, member: nat,
                    fee: nat): seq<PsetOutput>
    requires IsKey(member)
  {
    [Plain(destination, amount, cov.policyAsset)]
    + (if change > 0 then [Plain(cov.treasury, change, cov.policyAsset)] else [])
    + [Plain(MemberScript(member), 0, cov.policyAsset), Plain(Empty, fee, cov.policyAsset)]
  }

  predicate Built(pset: Pset, cov: Covenant, eye: Utxo, selected: seq<Utxo>, destination: Script, amount: nat,
                  member: nat, fee: nat)
    requires IsKey(member) && amount + fee <= Total(selected)
  {
    && pset.inputs == [eye.Spent()] + Spending(selected)
    && pset.outputs == [Plain(eye.script, eye.amount, eye.asset)]
        + Payments(cov, destination, amount, Total(selected) - (amount + fee), member, fee)
  }

  /** An address: its script is a key hash, script hash or witness program, never empty and never an OP_RETURN. */
  datatype Address = Address(id: nat, network: nat, blinded: bool) {
    function Script(): MemberMarkers.Script {
      Other(id)
    }
  }

  /**
   * `prepare_and_queue_exchange` up to queueing, with its selection of coins: it builds exactly when the amount and
   * the destination are in order and a prefix of the indexed coins covers amount and fee.
   */
  method PrepareExchange(amount: nat, to: Option<Address>, network: nat, leader: Option<nat>, fee: nat, cov: Covenant,
                         eye: Utxo, indexed: seq<Indexed>, chain: Chain)
    returns (r: Result<Pset, Error>, ghost selected: seq<Utxo>)
    requires leader.Some? ==> IsKey(leader.value)
    ensures r.Ok? <==>
              && amount > 0 && amount + fee <= U64_MAX && leader.Some?
              && to.Some? && to.value.network == network && !to.value.blinded
              && Coverable(indexed, chain, amount + fee, cov)
    ensures r.Ok? ==>
              && Chosen(selected, indexed, chain, amount + fee, cov)
              && Built(r.value, cov, eye, selected, to.value.Script(), amount, leader.value, fee)
  {
    selected := [];
    if amount == 0 {
      return Err(Invalid), [];
    }
    var required := amount + fee;
    if required > U64_MAX {
      return Err(Invalid), [];
    }
    if to.None? || to.value.network != network || to.value.blinded {
      return Err(Invalid), [];
    }
    var destination := to.value.Script();
    var funding := SelectFunding(indexed, chain, required, cov);
    if funding.Err? {
      return Err(funding.error), [];
    }
    selected := funding.value;
    var inputs := [eye.Spent()];
    var total: nat := 0;
    for i := 0 to |funding.value|
      invariant inputs + Spending(funding.value[i..]) == [eye.Spent()] + Spending(funding.value)
      invariant total + Total(funding.value[i..]) == Total(funding.value)
    {
      assert funding.value[i..][1..] == funding.value[i + 1..];
      inputs := inputs + [funding.value[i].Spent()];
      total := total + funding.value[i].amount;
    }
    assert inputs == [eye.Spent()] + Spending(funding.value);
    var outputs := [Plain(eye.script, eye.amount, eye.asset), Plain(destination, amount, cov.policyAsset)];
    var change := total - required;
    if change > 0 {
      outputs := outputs + [Plain(cov.treasury, change, cov.policyAsset)];
    }
    if leader.None? {
      return Err(Invalid), [];
    }
    outputs := outputs + [Plain(MemberScript(leader.value), 0, cov.policyAsset)];
    outputs := outputs + [Plain(Empty, fee, cov.policyAsset)];
    return Ok(Pset(inputs, outputs)), selected;
  }

  // ----- What is built validates -----

  lemma {:induction false} SpendingFunds(utxos: seq<Utxo>, cov: Covenant)
    requires forall utxo | utxo in utxos :: utxo.asset == cov.policyAsset && utxo.script == cov.treasury
    ensures |Spending(utxos)| == |utxos| && FundingTotal(Spending(utxos)) == Total(utxos)
    ensures forall input | input in Spending(utxos) :: Funds(input, cov)
  {
    if utxos != [] {
      assert utxos[0] in utxos;
      SpendingFunds(utxos[1..], cov);
    }
  }

  lemma {:induction false} SumsAppend(a: seq<PsetOutput>, b: seq<PsetOutput>, treasury: Script, kind: Kind)
    ensures AmountIn(a + b, treasury, kind) == AmountIn(a, treasury, kind) + AmountIn(b, treasury, kind)
    ensures CountOf(a + b, treasury, kind) == CountOf(a, treasury, kind) + CountOf(b, treasury, kind)
  {
    if a == [] {
      assert a + b == b;
    } else {
      SumsAppend(a[1..], b, treasury, kind);
      assert (a + b)[1..] == a[1..] + b;
    }
  }

  lemma {:induction false} TotalOutAppend(a: seq<PsetOutput>, b: seq<PsetOutput>)
    ensures TotalOut(a + b) == TotalOut(a) + TotalOut(b)
  {
    if a == [] {
      assert a + b == b;
    } else {
      TotalOutAppend(a[1..], b);
      assert (a + b)[1..] == a[1..] + b;
    }
  }

  lemma OneOutput(output: PsetOutput, treasury: Script, kind: Kind)
    ensures AmountIn([output], treasury, kind) == if KindOf(output.script, treasury) == kind then AmountOf(output)
            else 0
    ensures CountOf([output], treasury, kind) == if KindOf(output.script, treasury) == kind then 1 else 0
    ensures TotalOut([output]) == AmountOf(output)
  {
    assert [output][1..] == [];
  }

  /** What the built outputs add up to, kind by kind. */
  lemma PaymentSums(cov: Covenant, destination: Script, amount: nat, change: nat, member: nat, fee: nat, kind: Kind)
    requires IsKey(member) && cov.treasury.Other?
    ensures var outputs := Payments(cov, destination, amount, change, member, fee);
            var to := KindOf(destination, cov.treasury);
            && AmountIn(outputs, cov.treasury, kind)
               == (if to == kind then amount else 0) + (if kind == Change then change else 0)
                   + (if kind == Fee then fee else 0)
            && CountOf(outputs, cov.treasury, kind)
               == (if to == kind then 1 else 0) + (if kind == Change && change > 0 then 1 else 0)
                   + (if kind == Marker || kind == Fee then 1 else 0)
  {
    var first := Plain(destination, amount, cov.policyAsset);
    var marker := Plain(MemberScript(member), 0, cov.policyAsset);
    var paid := Plain(Empty, fee, cov.policyAsset);
    var back := if change > 0 then [Plain(cov.treasury, change, cov.policyAsset)] else [];
    MemberMarkerIsExact(MemberScript(member), member);
    assert [marker, paid] == [marker] + [paid];
    OneOutput(first, cov.treasury, kind);
    OneOutput(marker, cov.treasury, kind);
    OneOutput(paid, cov.treasury, kind);
    if change > 0 {
      OneOutput(back[0], cov.treasury, kind);
    }
    SumsAppend([marker], [paid], cov.treasury, kind);
    SumsAppend([first], back, cov.treasury, kind);
    SumsAppend([first] + back, [marker, paid], cov.treasury, kind);
  }

  lemma PaymentTotal(cov: Covenant, destination: Script, amount: nat, change: nat, member: nat, fee: nat)
    requires IsKey(member)
    ensures TotalOut(Payments(cov, destination, amount, change, member, fee)) == amount + change + fee
  {
    var first := Plain(destination, amount, cov.policyAsset);
    var marker := Plain(MemberScript(member), 0, cov.policyAsset);
    var paid := Plain(Empty, fee, cov.policyAsset);
    var back := if change > 0 then [Plain(cov.treasury, change, cov.policyAsset)] else [];
    assert [marker, paid] == [marker] + [paid];
    TotalOutAppend([marker], [paid]);
    TotalOutAppend([first], back);
    TotalOutAppend([first] + back, [marker, paid]);
  }

  lemma PaymentsPay(cov: Covenant, destination: Script, amount: nat, change: nat, member: nat, fee: nat)
    requires IsKey(member) && cov.treasury.Other? && MemberFromScript(destination).None?
    ensures forall output | output in Payments(cov, destination, amount, change, member, fee) ::
            Pays(output, cov, member)
  {
    MemberMarkerIsExact(MemberScript(member), member);
  }

  /**
   * An exchange the node builds validates exactly when its destination is an ordinary recipient: not the Treasury,
   * not a member marker, not empty. Its amount is then what was asked plus the fee.
   */
  lemma BuiltValidatesForRecipients(pset: Pset, cov: Covenant, eye: Utxo, selected: seq<Utxo>, indexed: seq<Indexed>,
                                    chain: Chain,
                                    destination: Script, amount: nat, member: nat, fee: nat)
    requires IsKey(member) && cov.treasury.Other? && amount > 0
    requires eye.asset == cov.eyeAsset && eye.script == cov.eyeScript
    requires Chosen(selected, indexed, chain, amount + fee, cov)
             && Built(pset, cov, eye, selected, destination, amount, member, fee)
    ensures ValidLayout(pset, cov, member) <==> KindOf(destination, cov.treasury) == Recipient
    ensures ValidLayout(pset, cov, member) ==>
              && Exchanged(pset, cov) == amount + fee
              && AmountIn(pset.outputs[1..], cov.treasury, Recipient) == amount
  {
    var change := Total(selected) - (amount + fee);
    var payments := Payments(cov, destination, amount, change, member, fee);
    SpendingFunds(selected, cov);
    assert pset.inputs[1..] == Spending(selected) && pset.outputs[1..] == payments;
    PaymentTotal(cov, destination, amount, change, member, fee);
    PaymentSums(cov, destination, amount, change, member, fee, Recipient);
    PaymentSums(cov, destination, amount, change, member, fee, Marker);
    PaymentSums(cov, destination, amount, change, member, fee, Change);
    if KindOf(destination, cov.treasury) == Recipient {
      PaymentsPay(cov, destination, amount, change, member, fee);
    }
  }

  /** For addresses that leaves one refusal: an exchange back to the Treasury's own address. */
  lemma BuiltValidatesForAddresses(pset: Pset, cov: Covenant, eye: Utxo, selected: seq<Utxo>, indexed: seq<Indexed>,
                                   chain: Chain,
                                   to: Address, amount: nat, member: nat, fee: nat)
    requires IsKey(member) && cov.treasury.Other? && amount > 0
    requires eye.asset == cov.eyeAsset && eye.script == cov.eyeScript
    requires Chosen(selected, indexed, chain, amount + fee, cov)
             && Built(pset, cov, eye, selected, to.Script(), amount, member, fee)
    ensures ValidLayout(pset, cov, member) <==> to.Script() != cov.treasury
    ensures ValidLayout(pset, cov, member) ==>
              && Exchanged(pset, cov) == amount + fee
              && NamesRecipients(pset) && AmountIn(pset.outputs[1..], cov.treasury, Recipient) == amount
  {
    BuiltValidatesForRecipients(pset, cov, eye, selected, indexed, chain, to.Script(), amount, member, fee);
    if ValidLayout(pset, cov, member) {
      ValidLayoutNamesRecipients(pset, cov, member);
    }
  }

  /** The PSET is one the builder makes of the Storm Eye and some index of Treasury coins. */
  ghost predicate NodeBuilds(pset: Pset, cov: Covenant, to: Address, amount: nat, member: nat, fee: nat) {
    && IsKey(member) && amount > 0
    && exists eye, selected, indexed, chain ::
         BuiltFrom(pset, cov, to, amount, member, fee, eye, selected, indexed, chain)
  }

  predicate BuiltFrom(pset: Pset, cov: Covenant, to: Address, amount: nat, member: nat, fee: nat,
                      eye: Utxo, selected: seq<Utxo>, indexed: seq<Indexed>, chain: Chain)
    requires IsKey(member)
  {
    && eye.asset == cov.eyeAsset && eye.script == cov.eyeScript
    && Chosen(selected, indexed, chain, amount + fee, cov)
    && Built(pset, cov, eye, selected, to.Script(), amount, member, fee)
  }
}
