/**
 * Polls and ideas of several contracts under one numbering. Lists are collected contract by
 * contract, each cut off at a threshold (100 polls, 300 ideas); an index adds up the totals
 * of the contracts before, which are not cut off.
 */
module GlobalIndex {
  import opened Wrappers

  const POLLS_THRESHOLD: nat := 100
  const IDEAS_THRESHOLD: nat := 300

  datatype Item = Item(contract: string, id: nat)

  /** The configured contracts in order, and how many items each has. */
  datatype Contracts = Contracts(addresses: seq<string>, totals: seq<nat>) {
    predicate Valid() {
      && |totals| == |addresses|
      && forall i, j | 0 <= i < j < |addresses| :: addresses[i] != addresses[j]
    }

    function Upto(n: nat): Contracts
      requires n <= |addresses| && n <= |totals|
    {
      Contracts(addresses[..n], totals[..n])
    }
  }

  function Cut(total: nat, threshold: nat): nat {
    if total < threshold then total else threshold
  }

  function ItemsOf(contract: string, count: nat): (items: seq<Item>)
    ensures |items| == count && forall i | 0 <= i < count :: items[i] == Item(contract, i)
  {
    seq(count, i requires 0 <= i < count => Item(contract, i))
  }

  /** The aggregated flat list. */
  function AllItems(c: Contracts, threshold: nat): seq<Item>
    requires c.Valid()
    decreases |c.addresses|
  {
    if c.addresses == [] then []
    else
      var n := |c.addresses| - 1;
      AllItems(c.Upto(n), threshold) + ItemsOf(c.addresses[n], Cut(c.totals[n], threshold))
  }

  function Sum(totals: seq<nat>): nat {
    if totals == [] then 0 else Sum(totals[..|totals| - 1]) + totals[|totals| - 1]
  }

  /** The number of items of the contracts that come before, as far as they are listed. */
  function SumCut(totals: seq<nat>, threshold: nat): nat {
    if totals == [] then 0 else SumCut(totals[..|totals| - 1], threshold) + Cut(totals[|totals| - 1], threshold)
  }

  /** The first place of an address, or -1. */
  function IndexOf(addresses: seq<string>, address: string): (i: int)
    ensures -1 <= i < |addresses|
    ensures i >= 0 ==> addresses[i] == address && address !in addresses[..i]
    ensures i == -1 ==> address !in addresses
  {
    if addresses == [] then -1
    else
      var n := |addresses| - 1;
      var i := IndexOf(addresses[..n], address);
      assert addresses == addresses[..n] + [addresses[n]];
      if i >= 0 then i else if addresses[n] == address then n else -1
  }

  /** The index adds the totals of the contracts before this one; an unknown contract has none before it. */
  function IndexFor(c: Contracts, contract: string, id: nat): nat
    requires c.Valid()
  {
    var i := IndexOf(c.addresses, contract);
    (if i < 0 then 0 else Sum(c.totals[..i])) + id
  }

  method GetIndex(c: Contracts, contract: string, id: nat) returns (index: nat)
    requires c.Valid()
    ensures index == IndexFor(c, contract, id)
  {
    var scIndex := IndexOf(c.addresses, contract);
    index := 0;
    var i := 0;
    while i < scIndex
      invariant 0 <= i && (scIndex >= 0 ==> i <= scIndex) && (scIndex < 0 ==> i == 0)
      invariant index == Sum(c.totals[..i])
    {
      assert c.totals[..i + 1][..i] == c.totals[..i];
      index := index + c.totals[i];
      i := i + 1;
    }
    index := index + id;
  }

  /** The items of one contract, asked for one by one and cut off at the threshold. */
  method GetItemsRaw(contract: string, total: nat, threshold: nat) returns (items: seq<Item>)
    ensures items == ItemsOf(contract, Cut(total, threshold))
  {
    items := [];
    var i := 0;
    while i < total && i < threshold
      invariant 0 <= i <= Cut(total, threshold)
      invariant items == ItemsOf(contract, i)
    {
      items := items + [Item(contract, i)];
      i := i + 1;
    }
  }

  /** The resolver's list before sorting and paging: all items, or those with the requested contract and id. */
  method Collect(c: Contracts, threshold: nat, wanted: Option<Item>) returns (items: seq<Item>)
    requires c.Valid()
    ensures wanted.None? ==> items == AllItems(c, threshold)
    ensures wanted.Some? ==>
              items == if wanted.value in AllItems(c, threshold) then [wanted.value] else []
  {
    items := [];
    var i := 0;
    while i < |c.addresses|
      invariant 0 <= i <= |c.addresses|
      invariant items == AllItems(c.Upto(i), threshold)
    {
      var own := GetItemsRaw(c.addresses[i], c.totals[i], threshold);
      assert c.Upto(i + 1).Upto(i) == c.Upto(i);
      items := items + own;
      i := i + 1;
    }
    assert c.Upto(i) == c;
    if wanted.Some? {
      ItemsDistinct(c, threshold);
      FilterFinds(items, wanted.value);
      items := Filter(items, wanted.value);
    }
  }

  /**
   * Polls of all contracts: within the threshold each stands at its own index, and there are as
   * many as the overall total.
   */
  method Polls(c: Contracts, wanted: Option<Item>) returns (polls: seq<Item>)
    requires c.Valid()
    ensures wanted.None? && (forall t | t in c.totals :: t <= 100) ==>
              && |polls| == Sum(c.totals)
              && forall k | 0 <= k < |polls| :: IndexFor(c, polls[k].contract, polls[k].id) == k
    ensures wanted.None? ==> polls == AllItems(c, 100)
    ensures wanted.Some? ==> polls == if wanted.value in AllItems(c, 100) then [wanted.value] else []
  {
    polls := Collect(c, POLLS_THRESHOLD, wanted);
    if wanted.None? && forall t | t in c.totals :: t <= POLLS_THRESHOLD {
      IndexIsBijection(c, POLLS_THRESHOLD, 0);
      forall k | 0 <= k < |polls|
        ensures IndexFor(c, polls[k].contract, polls[k].id) == k
      {
        IndexIsBijection(c, POLLS_THRESHOLD, k);
      }
    }
  }

  /**
   * Ideas of all contracts before sorting and paging: within the threshold each stands at its own
   * index, and there are as many as the overall total.
   */
  method Ideas(c: Contracts, wanted: Option<Item>) returns (ideas: seq<Item>)
    requires c.Valid()
    ensures wanted.None? && (forall t | t in c.totals :: t <= 300) ==>
              && |ideas| == Sum(c.totals)
              && forall k | 0 <= k < |ideas| :: IndexFor(c, ideas[k].contract, ideas[k].id) == k
    ensures wanted.None? ==> ideas == AllItems(c, 300)
    ensures wanted.Some? ==> ideas == if wanted.value in AllItems(c, 300) then [wanted.value] else []
  {
    ideas := Collect(c, IDEAS_THRESHOLD, wanted);
    if wanted.None? && forall t | t in c.totals :: t <= IDEAS_THRESHOLD {
      IndexIsBijection(c, IDEAS_THRESHOLD, 0);
      forall k | 0 <= k < |ideas|
        ensures IndexFor(c, ideas[k].contract, ideas[k].id) == k
      {
        IndexIsBijection(c, IDEAS_THRESHOLD, k);
      }
    }
  }

  /** The resolver's overall total, which is not cut off. */
  method Total(c: Contracts) returns (total: nat)
    requires c.Valid()
    ensures total == Sum(c.totals)
  {
    total := 0;
    var i := 0;
    while i < |c.addresses|
      invariant 0 <= i <= |c.addresses|
      invariant total == Sum(c.totals[..i])
    {
      assert c.totals[..i + 1][..i] == c.totals[..i];
      total := total + c.totals[i];
      i := i + 1;
    }
    assert c.totals[..i] == c.totals;
  }

  function Filter(items: seq<Item>, wanted: Item): seq<Item> {
    if items == [] then []
    else
      var n := |items| - 1;
      Filter(items[..n], wanted) + if items[n] == wanted then [wanted] else []
  }

  lemma {:induction false} FilterFinds(items: seq<Item>, wanted: Item)
    requires DistinctItems(items)
    ensures Filter(items, wanted) == if wanted in items then [wanted] else []
  {
    if items != [] {
      var n := |items| - 1;
      assert items == items[..n] + [items[n]];
      FilterFinds(items[..n], wanted);
    }
  }

  lemma {:induction false} ItemsLength(c: Contracts, threshold: nat)
    requires c.Valid()
    ensures |AllItems(c, threshold)| == SumCut(c.totals, threshold)
    decreases |c.addresses|
  {
    if c.addresses != [] {
      ItemsLength(c.Upto(|c.addresses| - 1), threshold);
    }
  }

  /** An item stands right after the listed items of the contracts before its own. */
  lemma {:induction false} ItemAt(c: Contracts, threshold: nat, i: nat, id: nat)
    requires c.Valid() && i < |c.addresses| && id < Cut(c.totals[i], threshold)
    ensures var k := SumCut(c.totals[..i], threshold) + id;
      k < |AllItems(c, threshold)| && AllItems(c, threshold)[k] == Item(c.addresses[i], id)
    decreases |c.addresses|
  {
    var n := |c.addresses| - 1;
    ItemsLength(c.Upto(n), threshold);
    if i < n {
      ItemAt(c.Upto(n), threshold, i, id);
      assert c.Upto(n).totals[..i] == c.totals[..i];
    }
  }

  lemma {:induction false} ListedIsOf(c: Contracts, threshold: nat, item: Item)
    requires c.Valid() && item in AllItems(c, threshold)
    ensures item.contract in c.addresses
    ensures var i := IndexOf(c.addresses, item.contract); i >= 0 && item.id < Cut(c.totals[i], threshold)
    decreases |c.addresses|
  {
    var n := |c.addresses| - 1;
    if item in AllItems(c.Upto(n), threshold) {
      ListedIsOf(c.Upto(n), threshold, item);
    } else {
      assert IndexOf(c.addresses, c.addresses[n]) == n;
    }
  }

  predicate DistinctItems(items: seq<Item>) {
    forall i, j | 0 <= i < j < |items| :: items[i] != items[j]
  }

  lemma {:induction false} ItemsDistinct(c: Contracts, threshold: nat)
    requires c.Valid()
    ensures DistinctItems(AllItems(c, threshold))
    decreases |c.addresses|
  {
    if c.addresses != [] {
      var n := |c.addresses| - 1;
      ItemsDistinct(c.Upto(n), threshold);
      forall item | item in AllItems(c.Upto(n), threshold)
        ensures item.contract != c.addresses[n]
      {
        ListedIsOf(c.Upto(n), threshold, item);
      }
    }
  }

  lemma {:induction false} SumsAgreeExactly(totals: seq<nat>, threshold: nat)
    ensures SumCut(totals, threshold) <= Sum(totals)
    ensures SumCut(totals, threshold) == Sum(totals) <==> forall t | t in totals :: t <= threshold
  {
    if totals != [] {
      var n := |totals| - 1;
      SumsAgreeExactly(totals[..n], threshold);
      var last := totals[n];
      assert totals == totals[..n] + [last];
      if forall t | t in totals[..n] + [last] :: t <= threshold {
        assert last in totals;
        assert forall t | t in totals[..n] :: t in totals[..n] + [last];
      } else if forall t | t in totals[..n] :: t <= threshold {
        assert last > threshold;
      } else {
        var t :| t in totals[..n] && t > threshold;
        assert t in totals;
      }
    }
  }

  /** The index of an item is where it stands in the aggregated list. */
  predicate IsAtIndex(c: Contracts, threshold: nat, contract: string, id: nat)
    requires c.Valid()
  {
    var k := IndexFor(c, contract, id);
    k < |AllItems(c, threshold)| && AllItems(c, threshold)[k] == Item(contract, id)
  }

  lemma ListedIsAtIndexExactly(c: Contracts, threshold: nat, i: nat, id: nat)
    requires c.Valid() && i < |c.addresses| && id < Cut(c.totals[i], threshold)
    ensures IsAtIndex(c, threshold, c.addresses[i], id) <==> forall t | t in c.totals[..i] :: t <= threshold
  {
    assert IndexOf(c.addresses, c.addresses[i]) == i;
    SumsAgreeExactly(c.totals[..i], threshold);
    ItemAt(c, threshold, i, id);
    ItemsDistinct(c, threshold);
  }

  /**
   * For any contract and id, the index is the position in the aggregated list exactly when the
   * contract is configured, the id is listed, and no contract before has more items than are listed.
   */
  lemma IndexIsPositionExactly(c: Contracts, threshold: nat, contract: string, id: nat)
    requires c.Valid()
    ensures IsAtIndex(c, threshold, contract, id) <==>
            var i := IndexOf(c.addresses, contract);
            i >= 0 && id < Cut(c.totals[i], threshold) && forall t | t in c.totals[..i] :: t <= threshold
  {
    var i := IndexOf(c.addresses, contract);
    if IsAtIndex(c, threshold, contract, id) {
      ListedIsOf(c, threshold, Item(contract, id));
    }
    if i >= 0 && id < Cut(c.totals[i], threshold) {
      ListedIsAtIndexExactly(c, threshold, i, id);
    }
  }

  /** Within the threshold the numbering is one-to-one onto 0 up to the overall total. */
  lemma IndexIsBijection(c: Contracts, threshold: nat, k: nat)
    requires c.Valid() && forall t | t in c.totals :: t <= threshold
    ensures |AllItems(c, threshold)| == Sum(c.totals)
    ensures k < Sum(c.totals) ==>
            var item := AllItems(c, threshold)[k];
            item.contract in c.addresses && IndexFor(c, item.contract, item.id) == k
    ensures DistinctItems(AllItems(c, threshold))
  {
    ItemsLength(c, threshold);
    SumsAgreeExactly(c.totals, threshold);
    ItemsDistinct(c, threshold);
    if k < Sum(c.totals) {
      PositionHasIndex(c, threshold, k);
    }
  }

  lemma {:induction false} PositionHasIndex(c: Contracts, threshold: nat, k: nat)
    requires c.Valid() && (forall t | t in c.totals :: t <= threshold) && k < |AllItems(c, threshold)|
    ensures var item := AllItems(c, threshold)[k];
      item.contract in c.addresses && IndexFor(c, item.contract, item.id) == k
    decreases |c.addresses|
  {
    var n := |c.addresses| - 1;
    var d := c.Upto(n);
    forall t | t in d.totals
      ensures t <= threshold
    {
      assert c.totals == d.totals + [c.totals[n]];
      assert t in c.totals;
    }
    if k < |AllItems(d, threshold)| {
      var item := AllItems(d, threshold)[k];
      PositionHasIndex(d, threshold, k);
      IndexForPrefix(c, n, item.contract, item.id);
    } else {
      ItemsLength(d, threshold);
      SumsAgreeExactly(d.totals, threshold);
      var id := k - |AllItems(d, threshold)|;
      assert AllItems(c, threshold)[k] == Item(c.addresses[n], id);
      assert IndexOf(c.addresses, c.addresses[n]) == n;
      assert IndexFor(c, c.addresses[n], id) == Sum(d.totals) + id;
    }
  }

  /** A contract keeps its numbering when contracts are added after it. */
  lemma IndexForPrefix(c: Contracts, n: nat, contract: string, id: nat)
    requires c.Valid() && n <= |c.addresses| && contract in c.addresses[..n]
    ensures contract in c.addresses && IndexFor(c, contract, id) == IndexFor(c.Upto(n), contract, id)
  {
    var i := IndexOf(c.addresses[..n], contract);
    assert c.addresses[i] == contract;
    assert IndexOf(c.addresses, contract) == i;
    assert c.totals[..n][..i] == c.totals[..i];
  }

  /** An item of an unknown contract gets the index of the first contract's item with its id. */
  lemma UnknownContractCollides(c: Contracts, contract: string, id: nat)
    requires c.Valid() && contract !in c.addresses && c.addresses != []
    ensures IndexFor(c, contract, id) == IndexFor(c, c.addresses[0], id) == id
  {
    assert IndexOf(c.addresses, c.addresses[0]) == 0;
  }
}
