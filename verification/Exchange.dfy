/** high-storm/src/high_storm/droplets.rs: building, validating and accounting a member's exchange of Droplets. */
module Exchanges {
  import opened Prelude
  import opened MemberMarkers
  import opened Ledgers

  // ----- Transactions -----

  datatype Confidential = Null | Explicit(amount: nat) | Commitment(point: nat)

  datatype TxOut = TxOut(script: Script, asset: Confidential, value: Confidential)

  datatype PsetInput = PsetInput(outpoint: Outpoint, witnessUtxo: Option<TxOut>)

  /** `blinding` stands for any of the proof and blinding-key fields being set. */
  datatype PsetOutput = PsetOutput(
    script: Script, amount: Option<nat>, asset: Option<nat>, amountComm: Option<nat>, assetComm: Option<nat>,
        blinding: bool) {

    predicate FullyExplicit() {
      amount.Some? && asset.Some? && amountComm.None? && assetComm.None? && !blinding
    }

    function ToTxOut(): TxOut {
      TxOut(script, Reveal(asset, assetComm), Reveal(amount, amountComm))
    }
  }

  function Reveal(plain: Option<nat>, commitment: Option<nat>): Confidential {
    if commitment.Some? then Commitment(commitment.value) else if plain.Some? then Explicit(plain.value) else Null
  }

  datatype Pset = Pset(inputs: seq<PsetInput>, outputs: seq<PsetOutput>)

  /** The network's fixed scripts and assets. */
  datatype Covenant = Covenant(eyeAsset: nat, eyeScript: Script, policyAsset: nat, treasury: Script)

  datatype Error = Invalid

  datatype ValidatedExchange = ValidatedExchange(member: nat, amount: nat)

  // ----- Sums by kind of output -----

  datatype Kind = Marker | Change | Fee | Recipient

  function KindOf(script: Script, treasury: Script): Kind {
    if MemberFromScript(script).Some? then Marker
    else if script == treasury then Change
    else if script != Empty then Recipient
    else Fee
  }

  function AmountOf(output: PsetOutput): nat {
    if output.amount.Some? then output.amount.value else 0
  }

  function AmountIn(outputs: seq<PsetOutput>, treasury: Script, kind: Kind): nat {
    if outputs == [] then 0
    else
      (if KindOf(outputs[0].script, treasury) == kind then AmountOf(outputs[0]) else 0)
      + AmountIn(outputs[1..], treasury, kind)
  }

  function CountOf(outputs: seq<PsetOutput>, treasury: Script, kind: Kind): nat {
    if outputs == [] then 0
    else (if KindOf(outputs[0].script, treasury) == kind then 1 else 0) + CountOf(outputs[1..], treasury, kind)
  }

  function TotalOut(outputs: seq<PsetOutput>): nat {
    if outputs == [] then 0 else AmountOf(outputs[0]) + TotalOut(outputs[1..])
  }

  lemma {:induction false} TotalByKind(outputs: seq<PsetOutput>, treasury: Script)
    ensures TotalOut(outputs) == AmountIn(outputs, treasury, Marker) + AmountIn(outputs, treasury, Change)
                                 + AmountIn(outputs, treasury, Fee) + AmountIn(outputs, treasury, Recipient)
  {
    if outputs != [] {
      TotalByKind(outputs[1..], treasury);
    }
  }

  function ValueOf(input: PsetInput): nat {
    if input.witnessUtxo.Some? && input.witnessUtxo.value.value.Explicit? then input.witnessUtxo.value.value.amount
        else 0
  }

  function FundingTotal(inputs: seq<PsetInput>): nat {
    if inputs == [] then 0 else ValueOf(inputs[0]) + FundingTotal(inputs[1..])
  }

  // ----- What a valid exchange is -----

  predicate StormEyePreserved(pset: Pset, cov: Covenant)
    requires pset.inputs != [] && pset.outputs != []
  {
    var input := pset.inputs[0].witnessUtxo;
    && input.Some?
    && input.value.asset == Explicit(cov.eyeAsset) && input.value.script == cov.eyeScript && input.value.value.Explicit?
    && pset.outputs[0].ToTxOut() == input.value
  }

  predicate Funds(input: PsetInput, cov: Covenant) {
    && input.witnessUtxo.Some? && input.witnessUtxo.value.script == cov.treasury
    && input.witnessUtxo.value.asset == Explicit(cov.policyAsset) && input.witnessUtxo.value.value.Explicit?
  }

  predicate Pays(output: PsetOutput, cov: Covenant, member: nat) {
    && output.FullyExplicit() && output.asset == Some(cov.policyAsset)
    && (MemberFromScript(output.script).Some? ==>
        MemberFromScript(output.script).value == member && output.amount == Some(0))
  }

  /**
   * The Storm Eye passes through; Treasury coins go to one marker, recipients, change and fees, and nothing is lost.
   */
  predicate ValidLayout(pset: Pset, cov: Covenant, member: nat) {
    && |pset.inputs| >= 2 && |pset.outputs| >= 3
    && StormEyePreserved(pset, cov)
    && (forall input | input in pset.inputs[1..] :: Funds(input, cov))
    && FundingTotal(pset.inputs[1..]) <= U64_MAX
    && (forall output | output in pset.outputs[1..] :: Pays(output, cov, member))
    && CountOf(pset.outputs[1..], cov.treasury, Marker) == 1
    && AmountIn(pset.outputs[1..], cov.treasury, Recipient) > 0
    && TotalOut(pset.outputs[1..]) == FundingTotal(pset.inputs[1..])
  }

  function Exchanged(pset: Pset, cov: Covenant): int
    requires pset.inputs != [] && pset.outputs != []
  {
    FundingTotal(pset.inputs[1..]) - AmountIn(pset.outputs[1..], cov.treasury, Change)
  }

  // ----- Validation -----

  /** The counters after `i` outputs, against what is still to come. */
  predicate Tallied(outputs: seq<PsetOutput>, treasury: Script, i: nat, markers: nat, returned: nat, total: nat,
                    recipient: nat)
    requires i <= |outputs|
  {
    && CountOf(outputs, treasury, Marker) == markers + CountOf(outputs[i..], treasury, Marker)
    && AmountIn(outputs, treasury, Change) == returned + AmountIn(outputs[i..], treasury, Change)
    && TotalOut(outputs) == total + TotalOut(outputs[i..])
    && AmountIn(outputs, treasury, Recipient) == recipient + AmountIn(outputs[i..], treasury, Recipient)
    && returned + recipient <= total
  }

  lemma TallyNext(outputs: seq<PsetOutput>, treasury: Script, i: nat, markers: nat, returned: nat, total: nat,
                  recipient: nat)
    requires i < |outputs| && Tallied(outputs, treasury, i, markers, returned, total, recipient)
    ensures var kind, amount := KindOf(outputs[i].script, treasury), AmountOf(outputs[i]);
            Tallied(outputs, treasury, i + 1, markers + (if kind == Marker then 1 else 0),
                returned + (if kind == Change then amount else 0),
                    total + amount, recipient + (if kind == Recipient then amount else 0))
  {
    assert outputs[i..][1..] == outputs[i + 1..];
  }

  method SumFunding(inputs: seq<PsetInput>, cov: Covenant) returns (r: Result<nat, Error>)
    ensures r.Ok? <==> (forall input | input in inputs :: Funds(input, cov)) && FundingTotal(inputs) <= U64_MAX
    ensures r.Ok? ==> r.value == FundingTotal(inputs)
  {
    var total: nat := 0;
    for i := 0 to |inputs|
      invariant forall k | 0 <= k < i :: Funds(inputs[k], cov)
      invariant FundingTotal(inputs) == total + FundingTotal(inputs[i..])
      invariant total <= U64_MAX
    {
      assert inputs[i..][1..] == inputs[i + 1..];
      if !Funds(inputs[i], cov) {
        return Err(Invalid);
      }
      if total + ValueOf(inputs[i]) > U64_MAX {
        return Err(Invalid);
      }
      total := total + ValueOf(inputs[i]);
    }
    return Ok(total);
  }

  /** `validate_layout`: accepts exactly the valid layouts whose signing hash is the one requested. */
  method ValidateLayout(pset: Pset, requestHash: nat, leader: Option<nat>, cov: Covenant,
                        signingHash: Pset -> Option<nat>)
    returns (r: Result<ValidatedExchange, Error>)
    ensures r.Ok? <==> leader.Some? && ValidLayout(pset, cov, leader.value) && signingHash(pset) == Some(requestHash)
    ensures r.Ok? ==> Exchanged(pset, cov) > 0 && r.value == ValidatedExchange(leader.value, Exchanged(pset, cov))
  {
    if |pset.inputs| < 2 || |pset.outputs| < 3 || !StormEyePreserved(pset, cov) {
      return Err(Invalid);
    }
    var treasuryInputs :- SumFunding(pset.inputs[1..], cov);
    if leader.None? {
      return Err(Invalid);
    }
    var outputs := pset.outputs[1..];
    var markers: nat, returned: nat, total: nat, recipient: nat := 0, 0, 0, 0;
    for i := 0 to |outputs|
      invariant forall k | 0 <= k < i :: Pays(outputs[k], cov, leader.value)
      invariant Tallied(outputs, cov.treasury, i, markers, returned, total, recipient)
      invariant total <= U64_MAX
    {
      var output := outputs[i];
      if !output.FullyExplicit() || output.asset != Some(cov.policyAsset) {
        assert !Pays(outputs[i], cov, leader.value);
        return Err(Invalid);
      }
      var amount := output.amount.value;
      TallyNext(outputs, cov.treasury, i, markers, returned, total, recipient);
      total := total + amount;
      if total > U64_MAX {
        return Err(Invalid);
      }
      var member := MemberFromScript(output.script);
      if member.Some? {
        markers := markers + 1;
        if member.value != leader.value || amount != 0 {
          assert !Pays(outputs[i], cov, leader.value);
          return Err(Invalid);
        }
      } else if output.script == cov.treasury {
        returned := returned + amount;
      } else if output.script != Empty {
        recipient := recipient + amount;
      }
    }
    if markers != 1 || recipient == 0 || total != treasuryInputs {
      return Err(Invalid);
    }
    if returned >= treasuryInputs {
      return Err(Invalid);
    }
    if signingHash(pset) != Some(requestHash) {
      return Err(Invalid);
    }
    return Ok(ValidatedExchange(leader.value, treasuryInputs - returned));
  }

  /** The amount taken from the Treasury is what recipients get plus fees. */
  lemma ExchangePaysRecipientsAndFees(pset: Pset, cov: Covenant, member: nat)
    requires ValidLayout(pset, cov, member)
    ensures Exchanged(pset, cov)
         == AmountIn(pset.outputs[1..], cov.treasury, Recipient) + AmountIn(pset.outputs[1..], cov.treasury, Fee)
  {
    TotalByKind(pset.outputs[1..], cov.treasury);
    MarkersCarryNothing(pset.outputs[1..], cov, member);
  }

  lemma {:induction false} MarkersCarryNothing(outputs: seq<PsetOutput>, cov: Covenant, member: nat)
    requires forall output | output in outputs :: Pays(output, cov, member)
    ensures AmountIn(outputs, cov.treasury, Marker) == 0
  {
    if outputs != [] {
      assert outputs[0] in outputs;
      MarkersCarryNothing(outputs[1..], cov, member);
    }
  }

  // ----- Nothing is lost, asset by asset -----

  /** What the inputs bring of an asset, as far as they show it. */
  function AssetIn(inputs: seq<PsetInput>, asset: nat): nat {
    if inputs == [] then 0
    else
      (if inputs[0].witnessUtxo.Some? && inputs[0].witnessUtxo.value.asset == Explicit(asset) then ValueOf(inputs[0])
       else 0)
      + AssetIn(inputs[1..], asset)
  }

  function AssetOut(outputs: seq<PsetOutput>, asset: nat): nat {
    if outputs == [] then 0
    else (if outputs[0].asset == Some(asset) then AmountOf(outputs[0]) else 0) + AssetOut(outputs[1..], asset)
  }

  lemma {:induction false} FundingIsPolicyAsset(inputs: seq<PsetInput>, cov: Covenant, asset: nat)
    requires forall input | input in inputs :: Funds(input, cov)
    ensures AssetIn(inputs, asset) == if asset == cov.policyAsset then FundingTotal(inputs) else 0
  {
    if inputs != [] {
      assert inputs[0] in inputs;
      FundingIsPolicyAsset(inputs[1..], cov, asset);
    }
  }

  lemma {:induction false} PaymentsArePolicyAsset(outputs: seq<PsetOutput>, cov: Covenant, member: nat, asset: nat)
    requires forall output | output in outputs :: Pays(output, cov, member)
    ensures AssetOut(outputs, asset) == if asset == cov.policyAsset then TotalOut(outputs) else 0
  {
    if outputs != [] {
      assert outputs[0] in outputs;
      PaymentsArePolicyAsset(outputs[1..], cov, member, asset);
    }
  }

  /** Every input shows its asset and value, and of every asset exactly what comes in goes out. */
  lemma ExchangeConservesAssets(pset: Pset, cov: Covenant, member: nat, asset: nat)
    requires ValidLayout(pset, cov, member)
    ensures forall input | input in pset.inputs ::
              input.witnessUtxo.Some? && input.witnessUtxo.value.asset.Explicit?
              && input.witnessUtxo.value.value.Explicit?
    ensures AssetIn(pset.inputs, asset) == AssetOut(pset.outputs, asset)
  {
    assert pset.inputs == [pset.inputs[0]] + pset.inputs[1..];
    FundingIsPolicyAsset(pset.inputs[1..], cov, asset);
    PaymentsArePolicyAsset(pset.outputs[1..], cov, member, asset);
  }

  /** Only Treasury coins pay, the covenant's output is unchanged, and exactly the leader is named, at no amount. */
  lemma OnlyTheTreasuryPays(pset: Pset, cov: Covenant, member: nat)
    requires ValidLayout(pset, cov, member)
    ensures forall i | 1 <= i < |pset.inputs| ::
              pset.inputs[i].witnessUtxo.Some? && pset.inputs[i].witnessUtxo.value.script == cov.treasury
    ensures pset.outputs[0].script == cov.eyeScript && pset.outputs[0].asset == Some(cov.eyeAsset)
    ensures exists i :: 1 <= i < |pset.outputs| && MemberFromScript(pset.outputs[i].script) == Some(member)
    ensures forall i | 1 <= i < |pset.outputs| && MemberFromScript(pset.outputs[i].script).Some? ::
              MemberFromScript(pset.outputs[i].script).value == member && pset.outputs[i].amount == Some(0)
  {
    forall i | 1 <= i < |pset.inputs| ensures Funds(pset.inputs[i], cov) {
      assert pset.inputs[i] == pset.inputs[1..][i - 1];
    }
    forall i | 1 <= i < |pset.outputs| ensures Pays(pset.outputs[i], cov, member) {
      assert pset.outputs[i] == pset.outputs[1..][i - 1];
    }
    var i := FirstMarker(pset.outputs[1..], cov.treasury);
    assert pset.outputs[i + 1] == pset.outputs[1..][i];
  }

  lemma {:induction false} FirstMarker(outputs: seq<PsetOutput>, treasury: Script) returns (i: nat)
    requires CountOf(outputs, treasury, Marker) > 0
    ensures i < |outputs| && MemberFromScript(outputs[i].script).Some?
  {
    if KindOf(outputs[0].script, treasury) == Marker {
      i := 0;
    } else {
      i := FirstMarker(outputs[1..], treasury);
      i := i + 1;
    }
  }

  /**
   * Input 1 shows the Treasury's script, every recipient output has an amount, and they total a positive 64-bit
   * value.
   */
  predicate NamesRecipients(pset: Pset) {
    && |pset.inputs| >= 2 && pset.inputs[1].witnessUtxo.Some? && pset.outputs != []
    && var treasury := pset.inputs[1].witnessUtxo.value.script;
    && (forall output | output in pset.outputs[1..] && KindOf(output.script, treasury) == Recipient ::
        output.amount.Some?)
    && 0 < AmountIn(pset.outputs[1..], treasury, Recipient) <= U64_MAX
  }

  /** `exchange_recipient_amount` */
  method ExchangeRecipientAmount(pset: Pset) returns (r: Result<nat, Error>)
    ensures r.Ok? <==> NamesRecipients(pset)
    ensures r.Ok? ==> r.value == AmountIn(pset.outputs[1..], pset.inputs[1].witnessUtxo.value.script, Recipient)
  {
    if |pset.inputs| < 2 || pset.inputs[1].witnessUtxo.None? {
      return Err(Invalid);
    }
    var treasury := pset.inputs[1].witnessUtxo.value.script;
    var outputs := if pset.outputs == [] then [] else pset.outputs[1..];
    var amount: nat := 0;
    for i := 0 to |outputs|
      invariant AmountIn(outputs, treasury, Recipient) == amount + AmountIn(outputs[i..], treasury, Recipient)
      invariant forall k | 0 <= k < i && KindOf(outputs[k].script, treasury) == Recipient :: outputs[k].amount.Some?
      invariant amount <= U64_MAX
    {
      assert outputs[i..][1..] == outputs[i + 1..];
      var output := outputs[i];
      if output.script == Empty || output.script == treasury || MemberFromScript(output.script).Some? {
        continue;
      }
      if output.amount.None? {
        assert outputs[i] in outputs;
        return Err(Invalid);
      }
      amount := amount + output.amount.value;
      if amount > U64_MAX {
        return Err(Invalid);
      }
    }
    if amount == 0 {
      return Err(Invalid);
    }
    return Ok(amount);
  }

  /** A valid layout names its recipients, under the Treasury's own script. */
  lemma ValidLayoutNamesRecipients(pset: Pset, cov: Covenant, member: nat)
    requires ValidLayout(pset, cov, member)
    ensures NamesRecipients(pset) && pset.inputs[1].witnessUtxo.value.script == cov.treasury
  {
    assert pset.inputs[1] in pset.inputs[1..];
    TotalByKind(pset.outputs[1..], cov.treasury);
  }
}
