/** Depletion of a user's energy, which sinks by the locked tokens every epoch. */
module Energy {
  datatype Entry = Entry(amount: int, totalLockedTokens: int, lastUpdateEpoch: int) {
    /** Only such entries lose energy; zero locked tokens count as positive. */
    predicate Depletes() {
      totalLockedTokens >= 0 && lastUpdateEpoch > 0
    }

    function AmountAt(epoch: int): int {
      amount - totalLockedTokens * (epoch - lastUpdateEpoch)
    }

    function Depleted(epoch: int): Entry {
      if Depletes() && lastUpdateEpoch < epoch then this.(amount := AmountAt(epoch)) else this
    }
  }

  class EnergyEntry {
    var amount: int
    const totalLockedTokens: int
    const lastUpdateEpoch: int

    constructor (amount: int, totalLockedTokens: int, lastUpdateEpoch: int)
      ensures Contents() == Entry(amount, totalLockedTokens, lastUpdateEpoch)
    {
      this.amount := amount;
      this.totalLockedTokens := totalLockedTokens;
      this.lastUpdateEpoch := lastUpdateEpoch;
    }

    function Contents(): Entry
      reads this
    {
      Entry(amount, totalLockedTokens, lastUpdateEpoch)
    }
  }

  /** The entry is changed in place and its update epoch stays behind. */
  method DepleteUserEnergy(energyEntry: EnergyEntry, currentEpoch: int)
    modifies energyEntry
    ensures energyEntry.Contents() == old(energyEntry.Contents()).Depleted(currentEpoch)
    ensures var locked, last := energyEntry.totalLockedTokens, energyEntry.lastUpdateEpoch;
      energyEntry.amount ==
      if locked >= 0 && last > 0 && last < currentEpoch then old(energyEntry.amount) - locked * (currentEpoch - last)
      else old(energyEntry.amount)
  {
    if energyEntry.totalLockedTokens >= 0 && energyEntry.lastUpdateEpoch > 0 {
      if energyEntry.lastUpdateEpoch >= currentEpoch {
        return;
      }
      var epochDiff := currentEpoch - energyEntry.lastUpdateEpoch;
      var energyDecrease := energyEntry.totalLockedTokens * epochDiff;
      energyEntry.amount := energyEntry.amount - energyDecrease;
    }
  }

  function DepletedThrough(e: Entry, epochs: seq<int>): Entry {
    if epochs == [] then e
    else DepletedThrough(e, epochs[..|epochs| - 1]).Depleted(epochs[|epochs| - 1])
  }

  /** The epochs charged for: every call charges again from the last update on. */
  function EpochsCharged(last: int, epochs: seq<int>): nat {
    if epochs == [] then 0
    else
      var n := |epochs| - 1;
      EpochsCharged(last, epochs[..n]) + if last < epochs[n] then epochs[n] - last else 0
  }

  /** Depleting the same entry any number of times charges the epochs of every call. */
  lemma {:induction false} EveryCallCharges(e: Entry, epochs: seq<int>)
    ensures e.Depletes() <==> e.totalLockedTokens >= 0 && e.lastUpdateEpoch > 0
    ensures DepletedThrough(e, epochs) ==
            if e.Depletes()
            then e.(amount := e.amount - e.totalLockedTokens * EpochsCharged(e.lastUpdateEpoch, epochs))
            else e
  {
    if epochs != [] {
      var n := |epochs| - 1;
      EveryCallCharges(e, epochs[..n]);
      var before, now := EpochsCharged(e.lastUpdateEpoch, epochs[..n]), EpochsCharged(e.lastUpdateEpoch, epochs);
      assert e.totalLockedTokens * now == e.totalLockedTokens * before + e.totalLockedTokens * (now - before);
    }
  }

  /**
   * A run of depletions ends where the last one alone would, exactly when the entry loses nothing
   * or no earlier call came after its update epoch.
   */
  lemma RunIsLastCallExactly(e: Entry, epochs: seq<int>, epoch: int)
    ensures DepletedThrough(e, epochs + [epoch]) == e.Depleted(epoch) <==>
            !e.Depletes() || e.totalLockedTokens == 0 || forall i | 0 <= i < |epochs| :: epochs[i] <= e.lastUpdateEpoch
  {
    assert (epochs + [epoch])[..|epochs|] == epochs;
    EveryCallCharges(e, epochs);
    NothingCharged(e.lastUpdateEpoch, epochs);
    ProductIsZero(e.totalLockedTokens, EpochsCharged(e.lastUpdateEpoch, epochs));
    SameCharge(e, DepletedThrough(e, epochs), epoch);
  }

  lemma SameCharge(e: Entry, f: Entry, epoch: int)
    requires f == e.(amount := f.amount)
    ensures f.Depleted(epoch) == e.Depleted(epoch) <==> f.amount == e.amount
  {
    assert f.AmountAt(epoch) - f.amount == e.AmountAt(epoch) - e.amount;
  }

  lemma ProductIsZero(a: int, b: int)
    ensures a * b == 0 <==> a == 0 || b == 0
  {
  }

  lemma {:induction false} NothingCharged(last: int, epochs: seq<int>)
    ensures EpochsCharged(last, epochs) == 0 <==> forall i | 0 <= i < |epochs| :: epochs[i] <= last
  {
    if epochs != [] {
      NothingCharged(last, epochs[..|epochs| - 1]);
    }
  }
}
