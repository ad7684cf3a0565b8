/**
 * Pages cut from the end of a list, and the sorting of ideas before paging. Proposals and
 * polls are shown newest first, so their pages are reversed; pages of ideas are not.
 */
module Pagination {
  import opened Wrappers

  datatype PaginationArgs = PaginationArgs(offset: nat, limit: int)

  // ----- Slices as JavaScript takes them -----

  /** `slice` with non-negative bounds: beyond the end stops at the end, and crossed bounds give nothing. */
  function Slice<T>(s: seq<T>, start: nat, end: nat): seq<T> {
    var to := if end > |s| then |s| else end;
    if start >= to then [] else s[start..to]
  }

  function Reverse<T>(s: seq<T>): (r: seq<T>)
    ensures |r| == |s|
    ensures forall i | 0 <= i < |s| :: r[i] == s[|s| - 1 - i]
  {
    if s == [] then [] else [s[|s| - 1]] + Reverse(s[..|s| - 1])
  }

  /** The page at an offset counted from the end of the list. */
  function GetPaginated<T>(list: seq<T>, page: Option<PaginationArgs>): seq<T> {
    match page
    case None => list
    case Some(p) =>
      var low := |list| - p.offset - p.limit;
      var start := if low > 0 then low else 0;
      var end := |list| - p.offset;
      if end < 0 then [] else Slice(list, start, end)
  }

  /** A page holds up to `limit` entries before the last `offset` ones, in their order; without a page all are shown. */
  lemma PageIs<T>(list: seq<T>, page: Option<PaginationArgs>)
    ensures page.None? ==> GetPaginated(list, page) == list
    ensures page.Some? ==>
              var high := |list| - page.value.offset;
              var low := if high - page.value.limit > 0 then high - page.value.limit else 0;
              var r := GetPaginated(list, page);
              && |r| == (if low < high then high - low else 0)
              && forall k | 0 <= k < |r| :: r[k] == list[low + k]
  {
  }

  /** Proposals and polls: the page newest first. */
  function NewestFirst<T>(list: seq<T>, page: PaginationArgs): seq<T> {
    Reverse(GetPaginated(list, Some(page)))
  }

  /** The resolver of proposals and polls: a page is reversed, the whole list is not. */
  method ListNewestFirst<T>(list: seq<T>, page: Option<PaginationArgs>) returns (r: seq<T>)
    ensures page.None? ==> r == list
    ensures page.Some? ==> |r| == |GetPaginated(list, page)|
    ensures page.Some? ==> forall k | 0 <= k < |r| :: r[k] == GetPaginated(list, page)[|r| - 1 - k]
  {
    r := GetPaginated(list, page);
    if page.Some? {
      r := Reverse(r);
    }
  }

  // ----- Pages put together -----

  /** Where the page after the first n begins, counted from the end. */
  function Offset(n: nat, limit: nat): nat {
    if n == 0 then 0 else Offset(n - 1, limit) + limit
  }

  lemma {:induction false} OffsetIs(n: nat, limit: nat)
    ensures Offset(n, limit) == n * limit
  {
    if n != 0 {
      OffsetIs(n - 1, limit);
      NextOffset(n, limit);
    }
  }

  lemma NextOffset(n: nat, limit: nat)
    requires n > 0
    ensures (n - 1) * limit + limit == n * limit
  {
  }

  /** The first n pages of a limit, in order. */
  function PagesNewestFirst<T>(list: seq<T>, limit: nat, n: nat): seq<T> {
    if n == 0 then []
    else PagesNewestFirst(list, limit, n - 1) + NewestFirst(list, PaginationArgs(Offset(n - 1, limit), limit))
  }

  /** The first n pages of a limit, the last of them first. */
  function PagesFromLast<T>(list: seq<T>, limit: nat, n: nat): seq<T> {
    if n == 0 then []
    else GetPaginated(list, Some(PaginationArgs(Offset(n - 1, limit), limit))) + PagesFromLast(list, limit, n - 1)
  }

  function Min(a: nat, b: nat): nat {
    if a < b then a else b
  }

  /** The end of the list, of the given size or all of it. */
  function Tail<T>(list: seq<T>, size: nat): seq<T> {
    list[|list| - Min(size, |list|)..]
  }

  /** A page and the entries after it meet without gap or overlap. */
  lemma PageMeetsTail<T>(list: seq<T>, offset: nat, limit: nat)
    ensures GetPaginated(list, Some(PaginationArgs(offset, limit))) + Tail(list, offset) == Tail(list, offset + limit)
  {
    var page := GetPaginated(list, Some(PaginationArgs(offset, limit)));
    assert page == list[|list| - Min(offset + limit, |list|)..|list| - Min(offset, |list|)];
  }

  /** The pages taken from the last to the first put the end of the list together. */
  lemma PagesFromLastAre<T>(list: seq<T>, limit: nat, n: nat)
    ensures PagesFromLast(list, limit, n) == Tail(list, n * limit)
  {
    PagesFromLastTo(list, limit, n);
    OffsetIs(n, limit);
  }

  lemma {:induction false} PagesFromLastTo<T>(list: seq<T>, limit: nat, n: nat)
    ensures PagesFromLast(list, limit, n) == Tail(list, Offset(n, limit))
  {
    if n != 0 {
      PagesFromLastTo(list, limit, n - 1);
      PageMeetsTail(list, Offset(n - 1, limit), limit);
    }
  }

  lemma PagesNewestFirstAre<T>(list: seq<T>, limit: nat, n: nat)
    ensures PagesNewestFirst(list, limit, n) == Reverse(Tail(list, n * limit))
  {
    PagesNewestFirstAt(list, limit, n);
    OffsetIs(n, limit);
  }

  /** The last entries, the last of them first. */
  ghost predicate IsLastFirst<T>(r: seq<T>, list: seq<T>, size: nat) {
    |r| == Min(size, |list|) && forall k | 0 <= k < |r| :: r[k] == list[|list| - 1 - k]
  }

  lemma {:induction false} PagesNewestFirstAt<T>(list: seq<T>, limit: nat, n: nat)
    ensures IsLastFirst(PagesNewestFirst(list, limit, n), list, Offset(n, limit))
  {
    if n != 0 {
      PagesNewestFirstAt(list, limit, n - 1);
      PageAppended(list, PagesNewestFirst(list, limit, n - 1), Offset(n - 1, limit), limit);
    }
  }

  lemma PageAppended<T>(list: seq<T>, pages: seq<T>, offset: nat, limit: nat)
    requires IsLastFirst(pages, list, offset)
    ensures IsLastFirst(pages + NewestFirst(list, PaginationArgs(offset, limit)), list, offset + limit)
  {
    var page := GetPaginated(list, Some(PaginationArgs(offset, limit)));
    PageIs(list, Some(PaginationArgs(offset, limit)));
    var all := pages + Reverse(page);
    forall k | 0 <= k < |all|
      ensures all[k] == list[|list| - 1 - k]
    {
      if k >= |pages| {
        assert all[k] == page[|page| - 1 - (k - |pages|)];
      }
    }
  }

  /** Once they reach the start, the pages at offsets 0, L, 2L, ... are the reversed list. */
  lemma AllPagesReverseList<T>(list: seq<T>, limit: nat, n: nat)
    requires n * limit >= |list|
    ensures PagesNewestFirst(list, limit, n) == Reverse(list)
  {
    PagesNewestFirstAre(list, limit, n);
    assert list[0..] == list;
  }

  // ----- Stable sorting -----

  /** Put into a sorted list, after everything that does not rank higher. */
  function Insert<T>(list: seq<T>, x: T, rank: T -> int): seq<T> {
    if list == [] then [x]
    else if rank(list[|list| - 1]) > rank(x) then Insert(list[..|list| - 1], x, rank) + [list[|list| - 1]]
    else list + [x]
  }

  function StableSort<T>(list: seq<T>, rank: T -> int): seq<T> {
    if list == [] then [] else Insert(StableSort(list[..|list| - 1], rank), list[|list| - 1], rank)
  }

  predicate Ascends<T>(list: seq<T>, rank: T -> int) {
    forall i, j | 0 <= i < j < |list| :: rank(list[i]) <= rank(list[j])
  }

  /** The entries of one rank, in the order they have. */
  function Ties<T>(list: seq<T>, r: int, rank: T -> int): seq<T> {
    if list == [] then []
    else
      var last := list[|list| - 1];
      Ties(list[..|list| - 1], r, rank) + if rank(last) == r then [last] else []
  }

  lemma {:induction false} InsertIsPermutation<T>(list: seq<T>, x: T, rank: T -> int)
    ensures multiset(Insert(list, x, rank)) == multiset(list) + multiset{x}
  {
    if list != [] {
      var most, last := list[..|list| - 1], list[|list| - 1];
      InsertIsPermutation(most, x, rank);
      assert list == most + [last];
    }
  }

  lemma {:induction false} InsertAscends<T>(list: seq<T>, x: T, rank: T -> int)
    requires Ascends(list, rank)
    ensures Ascends(Insert(list, x, rank), rank)
    ensures forall y | y in Insert(list, x, rank) :: y == x || y in list
  {
    if list != [] {
      var most, last := list[..|list| - 1], list[|list| - 1];
      InsertAscends(most, x, rank);
      forall y | y in most
        ensures rank(y) <= rank(last)
      {
        var i :| 0 <= i < |most| && most[i] == y;
        assert list[i] == y;
      }
    }
  }

  lemma TiesSnoc<T>(list: seq<T>, last: T, r: int, rank: T -> int)
    ensures Ties(list + [last], r, rank) == Ties(list, r, rank) + if rank(last) == r then [last] else []
  {
    assert (list + [last])[..|list|] == list;
  }

  lemma {:induction false} InsertIsStable<T>(list: seq<T>, x: T, r: int, rank: T -> int)
    ensures Ties(Insert(list, x, rank), r, rank) == Ties(list, r, rank) + if rank(x) == r then [x] else []
  {
    TiesSnoc(list, x, r, rank);
    if list != [] {
      var most, last := list[..|list| - 1], list[|list| - 1];
      if rank(last) > rank(x) {
        InsertIsStable(most, x, r, rank);
        TiesSnoc(Insert(most, x, rank), last, r, rank);
      }
    }
  }

  lemma {:induction false} StableSortPermutes<T>(list: seq<T>, rank: T -> int)
    ensures multiset(StableSort(list, rank)) == multiset(list)
  {
    if list != [] {
      var most, last := list[..|list| - 1], list[|list| - 1];
      StableSortPermutes(most, rank);
      InsertIsPermutation(StableSort(most, rank), last, rank);
      assert list == most + [last];
    }
  }

  lemma {:induction false} StableSortAscends<T>(list: seq<T>, rank: T -> int)
    ensures Ascends(StableSort(list, rank), rank)
  {
    if list != [] {
      StableSortAscends(list[..|list| - 1], rank);
      InsertAscends(StableSort(list[..|list| - 1], rank), list[|list| - 1], rank);
    }
  }

  lemma {:induction false} StableSortKeepsTies<T>(list: seq<T>, r: int, rank: T -> int)
    ensures Ties(StableSort(list, rank), r, rank) == Ties(list, r, rank)
  {
    if list != [] {
      StableSortKeepsTies(list[..|list| - 1], r, rank);
      InsertIsStable(StableSort(list[..|list| - 1], rank), list[|list| - 1], r, rank);
    }
  }

  // ----- Ideas and their order -----

  datatype SortField = VotingPower | VotesNumber | StartTime

  datatype Direction = Ascending | Descending

  /** Both parts of a sort may be absent; without a field nothing is reordered. */
  datatype SortArgs = SortArgs(field: Option<SortField>, order: Option<Direction>)

  datatype Idea = Idea(
    contract: string, id: nat,
    totalVotingPower: Option<nat>, totalVotesCount: Option<nat>, startTime: Option<nat>)

  function OrZero(n: Option<nat>): nat {
    if n.None? then 0 else n.value
  }

  function KeyOf(idea: Idea, field: SortField): nat {
    match field
    case VotingPower => OrZero(idea.totalVotingPower)
    case VotesNumber => OrZero(idea.totalVotesCount)
    case StartTime => OrZero(idea.startTime)
  }

  /** The comparator handed to the sort. */
  function Compare(a: Idea, b: Idea, args: SortArgs): int {
    var difference := if args.field.None? then 0 else KeyOf(a, args.field.value) - KeyOf(b, args.field.value);
    var sign := if difference == 0 then 0 else if difference < 0 then -1 else 1;
    if args.order == Some(Descending) then -sign else sign
  }

  /** The rank by which the comparator orders. */
  function RankOf(args: SortArgs): Idea -> int {
    (idea: Idea) =>
      if args.field.None? then 0
      else if args.order == Some(Descending) then 0 - KeyOf(idea, args.field.value)
      else KeyOf(idea, args.field.value)
  }

  lemma ComparatorComparesRanks(a: Idea, b: Idea, args: SortArgs)
    ensures Compare(a, b, args) > 0 <==> RankOf(args)(a) > RankOf(args)(b)
    ensures Compare(a, b, args) == 0 <==> RankOf(args)(a) == RankOf(args)(b)
    ensures Compare(a, b, args) == -Compare(b, a, args)
  {
  }

  /** Whether one amount may come before another; a missing one is 0. */
  predicate MayPrecede(x: Option<nat>, y: Option<nat>, order: Option<Direction>) {
    var m, n := if x.Some? then x.value else 0, if y.Some? then y.value else 0;
    if order == Some(Descending) then m >= n else m <= n
  }

  /** Whether an idea may come before another: by the field asked for, upward unless downward is asked for. */
  predicate IdeaMayPrecede(a: Idea, b: Idea, args: SortArgs) {
    && (args.field == Some(VotingPower) ==> MayPrecede(a.totalVotingPower, b.totalVotingPower, args.order))
    && (args.field == Some(VotesNumber) ==> MayPrecede(a.totalVotesCount, b.totalVotesCount, args.order))
    && (args.field == Some(StartTime) ==> MayPrecede(a.startTime, b.startTime, args.order))
  }

  lemma CompareIs(a: Idea, b: Idea, args: SortArgs)
    ensures Compare(a, b, args) <= 0 <==> IdeaMayPrecede(a, b, args)
  {
  }

  function ApplySortForIdeas(ideas: seq<Idea>, args: Option<SortArgs>): seq<Idea> {
    if args.None? then ideas else StableSort(ideas, RankOf(args.value))
  }

  predicate Ordered(list: seq<Idea>, args: SortArgs) {
    forall i, j | 0 <= i < j < |list| :: Compare(list[i], list[j], args) <= 0
  }

  method Ideas(allIdeas: seq<Idea>, args: Option<SortArgs>, page: Option<PaginationArgs>) returns (r: seq<Idea>)
    ensures r == GetPaginated(ApplySortForIdeas(allIdeas, args), page)
    ensures args.None? && page.None? ==> r == allIdeas
  {
    var sortedIdeas := allIdeas;
    if args.Some? {
      sortedIdeas := SortCopy(allIdeas, args.value);
    }
    r := GetPaginated(sortedIdeas, page);
  }

  /** A copy is sorted, each idea going in after those it does not compare below. */
  method SortCopy(ideas: seq<Idea>, args: SortArgs) returns (sorted: seq<Idea>)
    ensures sorted == StableSort(ideas, RankOf(args))
  {
    sorted := [];
    for i := 0 to |ideas|
      invariant sorted == StableSort(ideas[..i], RankOf(args))
    {
      assert ideas[..i + 1][..i] == ideas[..i];
      sorted := InsertInOrder(sorted, ideas[i], args);
    }
    assert ideas[..|ideas|] == ideas;
  }

  method InsertInOrder(list: seq<Idea>, idea: Idea, args: SortArgs) returns (r: seq<Idea>)
    ensures r == Insert(list, idea, RankOf(args))
  {
    var i := |list|;
    assert list[..i] == list && list[i..] == [];
    while i > 0 && Compare(list[i - 1], idea, args) > 0
      invariant 0 <= i <= |list|
      invariant Insert(list, idea, RankOf(args)) == Insert(list[..i], idea, RankOf(args)) + list[i..]
      decreases i
    {
      ComparatorComparesRanks(list[i - 1], idea, args);
      assert list[..i][..i - 1] == list[..i - 1] && list[..i][i - 1] == list[i - 1];
      assert [list[i - 1]] + list[i..] == list[i - 1..];
      i := i - 1;
    }
    if i > 0 {
      ComparatorComparesRanks(list[i - 1], idea, args);
      assert list[..i][i - 1] == list[i - 1];
    }
    r := list[..i] + [idea] + list[i..];
  }

  /**
   * The pages of ideas, taken from the last to the first, are all the ideas in the chosen
   * order: a permutation that the comparator finds in order and that keeps ties.
   */
  lemma AllPagesOfIdeas(ideas: seq<Idea>, args: SortArgs, limit: nat, n: nat)
    requires n * limit >= |ideas|
    ensures var all := PagesFromLast(ApplySortForIdeas(ideas, Some(args)), limit, n);
      && multiset(all) == multiset(ideas)
      && Ordered(all, args)
      && (forall i, j | 0 <= i < j < |all| :: IdeaMayPrecede(all[i], all[j], args))
      && forall r :: Ties(all, r, RankOf(args)) == Ties(ideas, r, RankOf(args))
  {
    var list := StableSort(ideas, RankOf(args));
    StableSortPermutes(ideas, RankOf(args));
    StableSortAscends(ideas, RankOf(args));
    forall r {
      StableSortKeepsTies(ideas, r, RankOf(args));
    }
    assert |list| == |multiset(list)| == |multiset(ideas)| == |ideas|;
    PagesFromLastAre(list, limit, n);
    assert list[0..] == list;
    forall i, j | 0 <= i < j < |list|
      ensures Compare(list[i], list[j], args) <= 0 && IdeaMayPrecede(list[i], list[j], args)
    {
      ComparatorComparesRanks(list[i], list[j], args);
      CompareIs(list[i], list[j], args);
    }
  }

  /** Without a field the sort changes nothing, whatever direction is asked for. */
  lemma {:induction false} NoFieldKeepsOrder(ideas: seq<Idea>, args: SortArgs)
    requires args.field.None?
    ensures ApplySortForIdeas(ideas, Some(args)) == ideas
  {
    if ideas != [] {
      NoFieldKeepsOrder(ideas[..|ideas| - 1], args);
    }
  }
}
