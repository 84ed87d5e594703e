/** high-storm/src/high_storm/indexer/mod.rs: which outputs count, whom a transaction names, who is then credited. */
module IndexerLaws {
  import opened Prelude
  import opened Sorting
  import opened MemberMarkers
  import opened Ledgers
  import opened LedgerBooks
  import opened LedgerLaws
  import opened ExchangeLedger
  import E = Exchanges

  /** An explicit output of the policy asset to the Treasury. */
  predicate PaysTreasury(out: E.TxOut, cov: E.Covenant) {
    out.script == cov.treasury && out.asset == E.Explicit(cov.policyAsset) && out.value.Explicit?
  }

  predicate AscendingIndexes(outputs: seq<Output>) {
    forall i, j | 0 <= i < j < |outputs| :: outputs[i].index < outputs[j].index
  }

  /** The output was found at a position counted from `index`. */
  predicate FoundAt(outputs: seq<E.TxOut>, cov: E.Covenant, index: nat, o: Output) {
    && index <= o.index < index + |outputs| && PaysTreasury(outputs[o.index - index], cov)
    && outputs[o.index - index].value.amount == o.amount
  }

  ghost predicate FindsExactly(found: seq<Output>, outputs: seq<E.TxOut>, cov: E.Covenant, index: nat) {
    AscendingIndexes(found) && forall o :: o in found <==> FoundAt(outputs, cov, index, o)
  }

  lemma {:induction false} TreasuryOutputsFrom(outputs: seq<E.TxOut>, cov: E.Covenant, index: nat)
    ensures FindsExactly(TreasuryOutputs(outputs, cov, index), outputs, cov, index)
  {
    if outputs != [] {
      TreasuryOutputsFrom(outputs[1..], cov, index + 1);
      FirstIsFound(outputs, cov, index, TreasuryOutputs(outputs[1..], cov, index + 1));
    }
  }

  function FirstFound(out: E.TxOut, cov: E.Covenant, index: nat): seq<Output> {
    if PaysTreasury(out, cov) then [Output(index, out.value.amount)] else []
  }

  lemma FirstIsFound(outputs: seq<E.TxOut>, cov: E.Covenant, index: nat, rest: seq<Output>)
    requires outputs != [] && FindsExactly(rest, outputs[1..], cov, index + 1)
    ensures FindsExactly(FirstFound(outputs[0], cov, index) + rest, outputs, cov, index)
  {
    var first := FirstFound(outputs[0], cov, index);
    forall o ensures FoundAt(outputs, cov, index, o) <==> o in first || FoundAt(outputs[1..], cov, index + 1, o) {
      if index < o.index < index + |outputs| {
        assert outputs[o.index - index] == outputs[1..][o.index - (index + 1)];
      }
    }
    forall o | o in rest ensures index < o.index {
      assert FoundAt(outputs[1..], cov, index + 1, o);
    }
  }

  /** The indexer takes each output that pays the Treasury once, at its position. */
  lemma TreasuryOutputsAreExact(outputs: seq<E.TxOut>, cov: E.Covenant)
    ensures var found := TreasuryOutputs(outputs, cov, 0);
            && AscendingIndexes(found)
            && forall o :: o in found <==>
                 && 0 <= o.index < |outputs| && PaysTreasury(outputs[o.index], cov)
                 && outputs[o.index].value.amount == o.amount
  {
    TreasuryOutputsFrom(outputs, cov, 0);
    assert forall o :: FoundAt(outputs, cov, 0, o) <==>
        0 <= o.index < |outputs| && PaysTreasury(outputs[o.index], cov) && outputs[o.index].value.amount == o.amount;
  }

  /** The member marked right after the output at this position. */
  function TagAfter(outputs: seq<E.TxOut>, index: nat): Option<nat> {
    if index + 1 < |outputs| then MemberFromScript(outputs[index + 1].script) else None
  }

  /** The first output that pays the Treasury and has a member's marker right after it decides; none leaves no tag. */
  ghost predicate IsTag(outputs: seq<E.TxOut>, cov: E.Covenant, tag: Option<nat>) {
    if tag.None? then NoTagBefore(outputs, cov, |outputs|)
    else
      exists i :: 0 <= i < |outputs| && PaysTreasury(outputs[i], cov) && TagAfter(outputs, i) == tag
                  && NoTagBefore(outputs, cov, i)
  }

  ghost predicate NoTagBefore(outputs: seq<E.TxOut>, cov: E.Covenant, end: nat)
    requires end <= |outputs|
  {
    forall i | 0 <= i < end && PaysTreasury(outputs[i], cov) :: TagAfter(outputs, i).None?
  }

  predicate NoneTagged(outputs: seq<E.TxOut>, deposits: seq<Output>, end: nat)
    requires end <= |deposits|
  {
    forall k | 0 <= k < end :: TagAfter(outputs, deposits[k].index).None?
  }

  lemma {:induction false} DepositMemberIsFirst(outputs: seq<E.TxOut>, deposits: seq<Output>)
    ensures var tag := DepositMember(outputs, deposits);
            if tag.None? then NoneTagged(outputs, deposits, |deposits|)
            else
              exists k :: 0 <= k < |deposits| && TagAfter(outputs, deposits[k].index) == tag
                          && NoneTagged(outputs, deposits, k)
  {
    if deposits != [] && TagAfter(outputs, deposits[0].index).None? {
      var rest := deposits[1..];
      DepositMemberIsFirst(outputs, rest);
      assert forall k | 0 < k < |deposits| :: deposits[k] == rest[k - 1];
      var tag := DepositMember(outputs, deposits);
      if tag.Some? {
        var k :| 0 <= k < |rest| && TagAfter(outputs, rest[k].index) == tag && NoneTagged(outputs, rest, k);
        assert TagAfter(outputs, deposits[k + 1].index) == tag && NoneTagged(outputs, deposits, k + 1);
      }
    } else if deposits != [] {
      assert TagAfter(outputs, deposits[0].index) == DepositMember(outputs, deposits)
          && NoneTagged(outputs, deposits, 0);
    }
  }

  lemma IndexedTag(outputs: seq<E.TxOut>, cov: E.Covenant)
    ensures IsTag(outputs, cov, DepositMember(outputs, TreasuryOutputs(outputs, cov, 0)))
  {
    var deposits := TreasuryOutputs(outputs, cov, 0);
    var tag := DepositMember(outputs, deposits);
    TreasuryOutputsFrom(outputs, cov, 0);
    DepositMemberIsFirst(outputs, deposits);
    if tag.None? {
      UntaggedBefore(outputs, cov, deposits, |deposits|, |outputs|);
    } else {
      var k :| 0 <= k < |deposits| && TagAfter(outputs, deposits[k].index) == tag && NoneTagged(outputs, deposits, k);
      assert deposits[k] in deposits && FoundAt(outputs, cov, 0, deposits[k]);
      UntaggedBefore(outputs, cov, deposits, k, deposits[k].index);
    }
  }

  lemma UntaggedBefore(outputs: seq<E.TxOut>, cov: E.Covenant, deposits: seq<Output>, k: nat, end: nat)
    requires FindsExactly(deposits, outputs, cov, 0) && k <= |deposits| && end <= |outputs|
    requires NoneTagged(outputs, deposits, k) && (k < |deposits| ==> deposits[k].index == end)
    ensures NoTagBefore(outputs, cov, end)
  {
    forall i | 0 <= i < end && PaysTreasury(outputs[i], cov) ensures TagAfter(outputs, i).None? {
      var deposit := Output(i, outputs[i].value.amount);
      assert FoundAt(outputs, cov, 0, deposit);
      var l :| 0 <= l < |deposits| && deposits[l] == deposit;
    }
  }

  /** A transaction is a member's exchange exactly when its markers, migrations included, name only that one. */
  lemma ExchangeMemberIsExact(outputs: seq<E.TxOut>, member: nat)
    ensures ExchangeMember(outputs) == Some(member) <==>
              && (exists out :: out in outputs && NamedMember(out.script) == Some(member))
              && forall out | out in outputs :: NamedMember(out.script).None? || NamedMember(out.script) == Some(member)
  {
    var named := NamedMembers(outputs);
    assert forall x :: x in named <==> exists out :: out in outputs && NamedMember(out.script) == Some(x);
    if ExchangeMember(outputs) == Some(member) {
      assert member in named;
      Singleton(named, member);
      forall out | out in outputs && NamedMember(out.script).Some? ensures NamedMember(out.script) == Some(member) {
        assert NamedMember(out.script).value in named;
      }
    }
    if out :| out in outputs && NamedMember(out.script) == Some(member) {
      assert member in named;
      Singleton(named, member);
    }
  }

  /**
   * From the chain to the ledger: a confirmed transaction that spends no Treasury value is credited to the member whose
   * marker follows one of its Treasury outputs, the first such, or else to all current members in shares.
   */
  lemma ConfirmedDepositIsCredited(ledger: Ledger, txid: nat, pset: E.Pset, cov: E.Covenant, members: seq<nat>,
                                   height: nat) returns (tag: Option<nat>)
    requires Sound(ledger.accounts) && SpendsNothing(ledger.coins, OutpointsOf(pset.inputs))
    requires StrictlyAscending(members) && members != []
    ensures IsTag(TxOutsOf(pset.outputs), cov, tag)
    ensures var tx := Indexed(txid, pset, cov);
            var r := TransactionStep(ledger, tx, members, height);
            && (r.Ok? <==> Depositable(ledger, tx, ToSet(members), height))
            && (r.Ok? ==>
                  Shared(ledger.accounts, r.value.accounts, ToSet(members), tag, OutputTotal(tx.outputs), height))
  {
    tag := Indexed(txid, pset, cov).depositMember;
    IndexedTag(TxOutsOf(pset.outputs), cov);
    DepositReachesItsMembers(ledger, Indexed(txid, pset, cov), members, height);
  }
}
