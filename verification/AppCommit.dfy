/** The part of App.Commit that receives epochs and switches to them (app/app.go:510-528). */
module AppCommit {
  import opened Words
  import opened StakingTypes
  import opened ActiveValidators
  import opened Handover
  import S = Staking
  import W = Watcher
  import C = StakingContract

  /** What pubkey2power may hold: a power for every public key that a nomination carries, taken
      from one of the nominations that carry it.  With several such nominations the iteration
      order decides which. */
  ghost predicate PowersIn(e: W.Epoch, powers: map<Pubkey, int>) {
    && (forall k :: k in e.valMapByPubkey ==> e.valMapByPubkey[k].pubkey in powers)
    && (forall pk :: pk in powers ==> exists k :: k in e.valMapByPubkey && e.valMapByPubkey[k] == W.Nomination(pk, powers[pk]))
  }

  // With every nomination under its own key there is no choice.
  lemma PowersAreUnique(e: W.Epoch, powers: map<Pubkey, int>)
    requires KeysMatch(e) && PowersIn(e, powers)
    ensures powers == PowersOf(e)
  {
    forall pk | pk in powers ensures pk in PowersOf(e) && powers[pk] == PowersOf(e)[pk] {
      var k :| k in e.valMapByPubkey && e.valMapByPubkey[k] == W.Nomination(pk, powers[pk]);
    }
  }

  // SwitchEpoch's pubkey2power, filled in any order.
  method PowersFrom(e: W.Epoch) returns (powers: map<Pubkey, int>)
    ensures PowersIn(e, powers)
    ensures KeysMatch(e) ==> powers == PowersOf(e)
  {
    powers := map[];
    var left, done := e.valMapByPubkey.Keys, {};
    while left != {}
      invariant left + done == e.valMapByPubkey.Keys
      invariant forall k :: k in done ==> e.valMapByPubkey[k].pubkey in powers
      invariant forall pk :: pk in powers ==> exists k :: k in done && e.valMapByPubkey[k] == W.Nomination(pk, powers[pk])
      decreases left
    {
      var pk :| pk in left;
      var v := e.valMapByPubkey[pk];
      left, done := left - {pk}, done + {pk};
      powers := powers[v.pubkey := v.nominatedCount];
    }
    assert done == e.valMapByPubkey.Keys;
    if KeysMatch(e) {
      PowersAreUnique(e, powers);
    }
  }

  class App {
    const ctx: C.Context
    var channel: seq<W.Epoch>
    var epochList: seq<W.Epoch>
    var currValidators: seq<Validator>
    ghost var switched: seq<Switched>

    ghost function System(loop: W.Loop): System
      reads this, ctx
    {
      Handover.System(loop, channel, epochList, switched, ctx.World(), currValidators)
    }

    constructor (ctx: C.Context)
      ensures this.ctx == ctx && channel == epochList == [] && currValidators == [] && switched == []
    {
      this.ctx := ctx;
      channel, epochList, currValidators, switched := [], [], [], [];
    }

    method Commit(blockTime: int, ghost loop: W.Loop) returns (ok: bool, ghost powers: map<Pubkey, int>)
      requires ctx.Valid()
      modifies this, ctx
      ensures ok <==> CommitWith(old(System(loop)), blockTime, powers).Some?
      ensures ok ==> CommitWith(old(System(loop)), blockTime, powers) == Some(System(loop))
      ensures old(epochList + channel) != [] ==> PowersIn(old(epochList + channel)[0], powers)
      ensures (forall e :: e in old(epochList + channel) ==> KeysMatch(e)) ==>
        powers == NextPowers(old(System(loop)))
    {
      powers := map[];
      if |channel| != 0 {
        var epoch := channel[0];
        channel := channel[1..];
        epochList := epochList + [epoch];
      }
      if |epochList| != 0 {
        assert epochList[0] == old(epochList + channel)[0];
        var pubkey2power := PowersFrom(epochList[0]);
        powers := pubkey2power;
        if blockTime > epochList[0].endTime + SWITCH_DELAY {
          var active := ctx.SwitchEpoch(pubkey2power);
          if active.None? {
            return false, powers;
          }
          currValidators := active.value;
          switched := switched + [Switched(epochList[0], blockTime, ctx.info.validators)];
          epochList := epochList[1..];
        }
      } else {
        currValidators := GetActiveValidators(ctx.info.validators, S.MINIMUM_STAKING_AMOUNT);
      }
      return true, powers;
    }
  }
}
