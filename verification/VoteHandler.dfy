/**
 * The handler of vote events: what one event writes to the shared cache, which keys it
 * publishes, and what the cached lists and tallies are after any run of events.
 */
module VoteHandler {
  import opened Wrappers
  import opened VoteTally
  import opened CacheKey

  datatype VoteType = UpVote | DownVote | DownVetoVote | AbstainVote | NotVoted

  datatype UserVote = UserVote(proposalId: nat, vote: VoteType)

  datatype VoteEvent = VoteEvent(contract: string, voter: string, proposalId: nat, nrVotes: nat, quorumUsed: nat)

  function ToVoteType(kind: VoteClass): VoteType {
    match kind
    case Up => UpVote
    case Down => DownVote
    case DownVeto => DownVetoVote
    case Abstain => AbstainVote
  }

  // ----- The list of proposals a user voted on -----

  predicate Distinct(list: seq<nat>) {
    forall i, j | 0 <= i < j < |list| :: list[i] != list[j]
  }

  /** The members of a list, each at its first place, as a set built from the list enumerates them. */
  function Unique(list: seq<nat>): (r: seq<nat>)
    ensures forall x: nat :: x in r <==> x in list
    ensures Distinct(r)
  {
    if list == [] then []
    else
      var most, last := Unique(list[..|list| - 1]), list[|list| - 1];
      assert list == list[..|list| - 1] + [last];
      if last in most then most else most + [last]
  }

  lemma UniqueSnoc(list: seq<nat>, id: nat)
    ensures Unique(list + [id]) == if id in list then Unique(list) else Unique(list) + [id]
  {
    assert (list + [id])[..|list|] == list;
  }

  lemma {:induction false} UniqueOfDistinct(list: seq<nat>)
    requires Distinct(list)
    ensures Unique(list) == list
  {
    if list != [] {
      var n := |list| - 1;
      var most := list[..n];
      UniqueOfDistinct(most);
      assert list == most + [list[n]];
      UniqueSnoc(most, list[n]);
      assert forall i | 0 <= i < n :: most[i] == list[i] != list[n];
    }
  }

  /** An already duplicate-free list only ever grows at its end. */
  lemma UniqueKeepsDistinct(list: seq<nat>, id: nat)
    requires Distinct(list)
    ensures Unique(list + [id]) == if id in list then list else list + [id]
  {
    UniqueOfDistinct(list);
    UniqueSnoc(list, id);
  }

  // ----- The list of a user's votes on one contract -----

  function Position(list: seq<UserVote>, id: nat): (r: Option<nat>)
    ensures r.None? <==> forall v | v in list :: v.proposalId != id
    ensures r.Some? ==> r.value < |list| && list[r.value].proposalId == id
    ensures r.Some? ==> forall j | 0 <= j < r.value :: list[j].proposalId != id
  {
    if list == [] then None
    else if list[0].proposalId == id then Some(0)
    else
      assert list == [list[0]] + list[1..];
      var r := Position(list[1..], id);
      if r.None? then None else Some(r.value + 1)
  }

  function Lookup(list: seq<UserVote>, id: nat): Option<VoteType> {
    var i := Position(list, id);
    if i.None? then None else Some(list[i.value].vote)
  }

  /** A vote event appends an entry, or changes the one that is there. */
  function RecordVote(list: seq<UserVote>, id: nat, vote: VoteType): seq<UserVote> {
    var i := Position(list, id);
    if i.None? then list + [UserVote(id, vote)] else list[i.value := UserVote(id, vote)]
  }

  /** A reader that finds no entry appends the vote it finds indexed. */
  function FillVote(list: seq<UserVote>, id: nat, indexed: VoteType): seq<UserVote> {
    if Position(list, id).Some? then list else list + [UserVote(id, indexed)]
  }

  datatype ListStep = Event(proposalId: nat, vote: VoteType) | Fill(proposalId: nat, indexed: VoteType)

  function ApplyStep(list: seq<UserVote>, step: ListStep): seq<UserVote> {
    match step
    case Event(id, vote) => RecordVote(list, id, vote)
    case Fill(id, indexed) => FillVote(list, id, indexed)
  }

  function ApplySteps(list: seq<UserVote>, steps: seq<ListStep>): seq<UserVote> {
    if steps == [] then list else ApplyStep(ApplySteps(list, steps[..|steps| - 1]), steps[|steps| - 1])
  }

  predicate DistinctIds(list: seq<UserVote>) {
    forall i, j | 0 <= i < j < |list| :: list[i].proposalId != list[j].proposalId
  }

  /** The vote a reader should see: the last event's, else the first one found indexed, else what was listed before. */
  function Expected(before: Option<VoteType>, steps: seq<ListStep>, id: nat): Option<VoteType> {
    if steps == [] then before
    else
      var sofar := Expected(before, steps[..|steps| - 1], id);
      var step := steps[|steps| - 1];
      if step.proposalId != id then sofar
      else if step.Event? then Some(step.vote)
      else if sofar.None? then Some(step.indexed)
      else sofar
  }

  /** What a lookup gives after a vote was recorded. */
  lemma LookupAfterRecord(list: seq<UserVote>, recorded: nat, vote: VoteType, id: nat)
    ensures Lookup(RecordVote(list, recorded, vote), id) == if id == recorded then Some(vote) else Lookup(list, id)
  {
    var i := Position(list, recorded);
    if i.None? {
      LookupAppend(list, UserVote(recorded, vote), id);
    } else {
      LookupReplace(list, i.value, vote, id);
    }
  }

  lemma LookupAfterStep(list: seq<UserVote>, step: ListStep, id: nat)
    requires DistinctIds(list)
    ensures DistinctIds(ApplyStep(list, step))
    ensures Lookup(ApplyStep(list, step), id) ==
            if step.proposalId != id then Lookup(list, id)
            else if step.Event? then Some(step.vote)
            else if Lookup(list, id).None? then Some(step.indexed)
            else Lookup(list, id)
  {
    var i := Position(list, step.proposalId);
    if i.None? {
      var vote := if step.Event? then step.vote else step.indexed;
      LookupAppend(list, UserVote(step.proposalId, vote), id);
    } else if step.Event? {
      LookupReplace(list, i.value, step.vote, id);
    }
  }

  lemma {:induction false} LookupAppend(list: seq<UserVote>, v: UserVote, id: nat)
    ensures Lookup(list + [v], id) ==
            if Lookup(list, id).Some? then Lookup(list, id) else if v.proposalId == id then Some(v.vote) else None
  {
    if list != [] {
      LookupAppend(list[1..], v, id);
      assert (list + [v])[1..] == list[1..] + [v];
    }
  }

  lemma {:induction false} LookupReplace(list: seq<UserVote>, i: nat, vote: VoteType, id: nat)
    requires i < |list| && Position(list, list[i].proposalId) == Some(i)
    ensures Lookup(list[i := UserVote(list[i].proposalId, vote)], id) ==
            if id == list[i].proposalId then Some(vote) else Lookup(list, id)
  {
    var v := UserVote(list[i].proposalId, vote);
    if i != 0 {
      LookupReplace(list[1..], i - 1, vote, id);
      assert list[i := v][1..] == list[1..][i - 1 := v];
      assert list[i := v][0] == list[0] && list[0].proposalId != list[i].proposalId;
    } else {
      assert list[i := v][1..] == list[1..];
    }
  }

  /**
   * After any mix of event updates and reader fills, the list has one entry a proposal at
   * most, and a lookup gives the last event's vote, whatever was filled before or after it.
   */
  lemma {:induction false} VoteListAfterSteps(list: seq<UserVote>, steps: seq<ListStep>, id: nat)
    requires DistinctIds(list)
    ensures DistinctIds(ApplySteps(list, steps))
    ensures Lookup(ApplySteps(list, steps), id) == Expected(Lookup(list, id), steps, id)
  {
    if steps != [] {
      VoteListAfterSteps(list, steps[..|steps| - 1], id);
      LookupAfterStep(ApplySteps(list, steps[..|steps| - 1]), steps[|steps| - 1], id);
    }
  }

  /** The last event decides: fills after it change nothing. */
  lemma {:induction false} LastEventDecides(before: Option<VoteType>, steps: seq<ListStep>, k: nat)
    requires k < |steps| && steps[k].Event?
    requires forall j | k < j < |steps| :: steps[j].Event? ==> steps[j].proposalId != steps[k].proposalId
    ensures Expected(before, steps, steps[k].proposalId) == Some(steps[k].vote)
  {
    if k + 1 < |steps| {
      LastEventDecides(before, steps[..|steps| - 1], k);
    }
  }

  /**
   * Exactly when an event, handled from an own copy, leaves the list it would leave of the
   * shared one: the two are the same but for the vote to be recorded.
   */
  lemma EventMeetsSharedExactly(own: seq<UserVote>, all: seq<UserVote>, id: nat, vote: VoteType)
    ensures var i, j := Position(own, id), Position(all, id);
      RecordVote(own, id, vote) == RecordVote(all, id, vote) <==>
      || own == all
      || (i.Some? && i == j && |own| == |all| && own[i.value := all[i.value]] == all)
      || (i.None? && j == Some(|own|) && all == own + [all[|own|]])
      || (j.None? && i == Some(|all|) && own == all + [own[|all|]])
  {
    var i, j := Position(own, id), Position(all, id);
    if i.Some? && j.Some? {
      BothRecorded(own, all, id, vote);
    } else if j.Some? {
      OneRecorded(own, all, id, vote);
    } else if i.Some? {
      OneRecorded(all, own, id, vote);
    } else {
      NoneRecorded(own, all, id, vote);
    }
  }

  lemma BothRecorded(own: seq<UserVote>, all: seq<UserVote>, id: nat, vote: VoteType)
    requires Position(own, id).Some? && Position(all, id).Some?
    ensures var i, j := Position(own, id).value, Position(all, id).value;
      RecordVote(own, id, vote) == RecordVote(all, id, vote) <==>
      i == j && |own| == |all| && own[i := all[i]] == all
  {
    var i := Position(own, id).value;
    RecordedOnce(own, id, vote);
    RecordedOnce(all, id, vote);
    if RecordVote(own, id, vote) == RecordVote(all, id, vote) {
      assert own[i := all[i]] == RecordVote(own, id, vote)[i := all[i]];
    }
    if Position(all, id).value == i && |own| == |all| && own[i := all[i]] == all {
      assert RecordVote(all, id, vote) == own[i := all[i]][i := UserVote(id, vote)];
    }
  }

  lemma OneRecorded(without: seq<UserVote>, with_: seq<UserVote>, id: nat, vote: VoteType)
    requires Position(without, id).None? && Position(with_, id).Some?
    ensures var j := Position(with_, id).value;
      RecordVote(without, id, vote) == RecordVote(with_, id, vote) <==>
      j == |without| && with_ == without + [with_[j]]
  {
    assert UserVote(id, vote) !in without;
    AppendMeetsUpdate(without, with_, Position(with_, id).value, UserVote(id, vote));
  }

  lemma AppendMeetsUpdate<T>(a: seq<T>, b: seq<T>, j: nat, x: T)
    requires j < |b| && x !in a
    ensures a + [x] == b[j := x] <==> j == |a| && b == a + [b[j]]
  {
    if a + [x] == b[j := x] {
      assert (a + [x])[j] == x;
      assert b == (a + [x])[j := b[j]];
    }
  }

  lemma NoneRecorded(own: seq<UserVote>, all: seq<UserVote>, id: nat, vote: VoteType)
    requires Position(own, id).None? && Position(all, id).None?
    ensures RecordVote(own, id, vote) == RecordVote(all, id, vote) <==> own == all
  {
    RecordedOnce(own, id, vote);
    RecordedOnce(all, id, vote);
  }

  /** Where a vote is recorded, and what the list was but for it. */
  lemma RecordedOnce(list: seq<UserVote>, id: nat, vote: VoteType)
    ensures var after, i := RecordVote(list, id, vote), Position(list, id);
      && Position(after, id) == Some(if i.Some? then i.value else |list|)
      && (i.None? ==> after[..|list|] == list && |after| == |list| + 1)
      && (i.Some? ==> after[i.value := list[i.value]] == list && |after| == |list|)
  {
  }

  // ----- The reader that fills the list -----

  /** The list a node reads: its own copy, else the shared list, else the empty list computed on a miss. */
  function ReadList(local: Option<seq<UserVote>>, shared: Option<seq<UserVote>>): seq<UserVote> {
    if local.Some? then local.value else if shared.Some? then shared.value else []
  }

  /** The shared list after a reader: what it read with the vote it found appended, or as it was. */
  function SharedAfterRead(local: Option<seq<UserVote>>, shared: Option<seq<UserVote>>, id: nat, indexed: VoteType):
    seq<UserVote>
  {
    var list := ReadList(local, shared);
    if Position(list, id).Some? then ReadList(None, shared) else FillVote(list, id, indexed)
  }

  /**
   * Exactly when a reader leaves the shared list as one fill of that list would: both lists
   * have the proposal, or both are the same, or the own copy lacks just the entry to be filled.
   */
  lemma FillMeetsSharedExactly(local: Option<seq<UserVote>>, shared: Option<seq<UserVote>>, id: nat, indexed: VoteType)
    ensures var own, all := ReadList(local, shared), ReadList(None, shared);
      SharedAfterRead(local, shared, id, indexed) == FillVote(all, id, indexed) <==>
      || (Position(own, id).Some? && Position(all, id).Some?)
      || own == all
      || (Position(own, id).None? && all == own + [UserVote(id, indexed)])
  {
    var own, all := ReadList(local, shared), ReadList(None, shared);
    LookupAppend(own, UserVote(id, indexed), id);
    if Position(own, id).Some? && Position(all, id).None? {
      assert |FillVote(all, id, indexed)| == |all| + 1;
    } else if Position(own, id).None? && Position(all, id).None? {
      assert own == (own + [UserVote(id, indexed)])[..|own|] && all == (all + [UserVote(id, indexed)])[..|all|];
    }
  }

  /** A reader with an older copy takes an event's vote out of the shared list again. */
  lemma StaleFillDropsVote(own: seq<UserVote>, id: nat, vote: VoteType, other: nat, indexed: VoteType)
    requires Position(own, id).None? && Position(own, other).None? && other != id
    ensures var shared := RecordVote(own, id, vote);
      && Lookup(shared, id) == Some(vote)
      && Lookup(SharedAfterRead(Some(own), Some(shared), other, indexed), id) == None
  {
    LookupAppend(own, UserVote(id, vote), id);
    LookupAppend(own, UserVote(other, indexed), id);
  }

  /** A node's view of the vote lists: the shared ones and its own copies. */
  class VoteTypesCache {
    var shared: map<(string, string), seq<UserVote>>
    var local: map<(string, string), seq<UserVote>>

    function Shared(contract: string, user: string): Option<seq<UserVote>>
      reads this
    {
      if (contract, user) in shared then Some(shared[(contract, user)]) else None
    }

    function Local(contract: string, user: string): Option<seq<UserVote>>
      reads this
    {
      if (contract, user) in local then Some(local[(contract, user)]) else None
    }

    /** The cached method: a miss fills the caches it went through. */
    method UserVoteTypesForContract(contract: string, user: string) returns (list: seq<UserVote>)
      modifies this
      ensures list == ReadList(old(Local(contract, user)), old(Shared(contract, user)))
      ensures list == if (contract, user) in old(local) then old(local)[(contract, user)]
                      else if (contract, user) in old(shared) then old(shared)[(contract, user)]
                      else []
      ensures local == old(local)[(contract, user) := list]
      ensures shared == if old(Local(contract, user)).None? && old(Shared(contract, user)).None?
                        then old(shared)[(contract, user) := []] else old(shared)
    {
      if (contract, user) in local {
        list := local[(contract, user)];
      } else if (contract, user) in shared {
        list := shared[(contract, user)];
      } else {
        list := [];
        shared := shared[(contract, user) := list];
      }
      local := local[(contract, user) := list];
    }

    /** The filled list is set in both caches, and its key is not handed on to anyone who would publish it. */
    method UserVotedProposalsWithVoteType(contract: string, user: string, proposalId: nat, indexed: VoteType)
      returns (vote: VoteType)
      modifies this
      ensures var read := ReadList(old(Local(contract, user)), old(Shared(contract, user)));
        var list := FillVote(read, proposalId, indexed);
        Some(vote) == Lookup(list, proposalId) && local == old(local)[(contract, user) := list]
      ensures shared ==
              if Position(ReadList(old(Local(contract, user)), old(Shared(contract, user))), proposalId).Some?
              then old(shared)
              else old(shared)[(contract, user) :=
                SharedAfterRead(old(Local(contract, user)), old(Shared(contract, user)), proposalId, indexed)]
    {
      var list := UserVoteTypesForContract(contract, user);
      var i := Position(list, proposalId);
      if i.Some? {
        return list[i.value].vote;
      }
      LookupAppend(list, UserVote(proposalId, indexed), proposalId);
      SetVoteTypes(contract, user, list + [UserVote(proposalId, indexed)]);
      return indexed;
    }

    /** The setter: both caches hold the list. */
    method SetVoteTypes(contract: string, user: string, list: seq<UserVote>)
      modifies this
      ensures shared == old(shared)[(contract, user) := list]
      ensures local == old(local)[(contract, user) := list]
    {
      shared := shared[(contract, user) := list];
      local := local[(contract, user) := list];
    }
  }

  // ----- One event -----

  /** The part of the shared cache that vote events write. */
  datatype VoteCache = VoteCache(
    votedProposals: map<(string, string), seq<nat>>,
    voteTypes: map<(string, string), seq<UserVote>>,
    tallies: map<(string, nat), ProposalVotes>)
  {
    /** What is cached under a key. */
    ghost predicate SameAt(other: VoteCache, key: GovernanceKey) {
      match key
      case UserVotedProposals(c, u) =>
        ((c, u) in votedProposals <==> (c, u) in other.votedProposals) &&
        ((c, u) in votedProposals ==> votedProposals[(c, u)] == other.votedProposals[(c, u)])
      case UserVoteTypesForContract(c, u) =>
        ((c, u) in voteTypes <==> (c, u) in other.voteTypes) &&
        ((c, u) in voteTypes ==> voteTypes[(c, u)] == other.voteTypes[(c, u)])
      case ProposalVotes(c, p) =>
        ((c, p) in tallies <==> (c, p) in other.tallies) &&
        ((c, p) in tallies ==> tallies[(c, p)] == other.tallies[(c, p)])
      case _ => true
    }
  }

  /** What the chain answers when the cache misses. */
  datatype ChainAnswers = ChainAnswers(votedProposals: seq<nat>, tally: ProposalVotes)

  function KeysOf(e: VoteEvent): seq<GovernanceKey> {
    [UserVotedProposals(e.contract, e.voter), UserVoteTypesForContract(e.contract, e.voter),
     CacheKey.ProposalVotes(e.contract, e.proposalId)]
  }

  lemma PushedKeys(held: seq<GovernanceKey>, e: VoteEvent)
    ensures held + [UserVotedProposals(e.contract, e.voter)] + [UserVoteTypesForContract(e.contract, e.voter)] +
            [CacheKey.ProposalVotes(e.contract, e.proposalId)] == held + KeysOf(e)
  {
  }

  function VoteOf(e: VoteEvent, kind: VoteClass): Vote {
    Vote(kind, e.nrVotes, e.quorumUsed)
  }

  function VotedProposalsAfter(cache: VoteCache, e: VoteEvent, chain: ChainAnswers): VoteCache {
    var user := (e.contract, e.voter);
    var voted := if user in cache.votedProposals then cache.votedProposals[user] else chain.votedProposals;
    cache.(votedProposals := cache.votedProposals[user := Unique(voted + [e.proposalId])])
  }

  function VoteTypesAfter(cache: VoteCache, e: VoteEvent, kind: VoteClass): VoteCache {
    var user := (e.contract, e.voter);
    var types := if user in cache.voteTypes then cache.voteTypes[user] else [];
    cache.(voteTypes := cache.voteTypes[user := RecordVote(types, e.proposalId, ToVoteType(kind))])
  }

  function TallyAfter(cache: VoteCache, e: VoteEvent, kind: VoteClass, chain: ChainAnswers): VoteCache {
    var proposal := (e.contract, e.proposalId);
    var tally := if proposal in cache.tallies then cache.tallies[proposal] else chain.tally;
    cache.(tallies := cache.tallies[proposal := Increase(tally, VoteOf(e, kind))])
  }

  function AfterEvent(cache: VoteCache, e: VoteEvent, kind: VoteClass, chain: ChainAnswers): VoteCache {
    TallyAfter(VoteTypesAfter(VotedProposalsAfter(cache, e, chain), e, kind), e, kind, chain)
  }

  /** An event changes the entries of the keys it publishes and no others. */
  lemma OnlyPublishedKeysChange(cache: VoteCache, e: VoteEvent, kind: VoteClass, chain: ChainAnswers,
                                key: GovernanceKey)
    ensures key in KeysOf(e) || AfterEvent(cache, e, kind, chain).SameAt(cache, key)
  {
    assert KeysOf(e)[0] in KeysOf(e) && KeysOf(e)[1] in KeysOf(e) && KeysOf(e)[2] in KeysOf(e);
  }

  /** The vote type that belongs to each kind of event. */
  predicate IsTypeOf(vote: VoteType, kind: VoteClass) {
    && (vote == UpVote <==> kind == Up)
    && (vote == DownVote <==> kind == Down)
    && (vote == DownVetoVote <==> kind == DownVeto)
    && (vote == AbstainVote <==> kind == Abstain)
    && vote != NotVoted
  }

  /** After an event the user's list has the vote of its kind on its proposal, and no other lookup changes. */
  lemma EventVote(cache: VoteCache, e: VoteEvent, kind: VoteClass, chain: ChainAnswers, id: nat)
    ensures var user, after := (e.contract, e.voter), AfterEvent(cache, e, kind, chain).voteTypes;
      && user in after
      && (id == e.proposalId ==> Lookup(after[user], id).Some? && IsTypeOf(Lookup(after[user], id).value, kind))
      && (id != e.proposalId ==>
            Lookup(after[user], id) == if user in cache.voteTypes then Lookup(cache.voteTypes[user], id) else None)
  {
    var user := (e.contract, e.voter);
    var before := if user in cache.voteTypes then cache.voteTypes[user] else [];
    LookupAfterRecord(before, e.proposalId, ToVoteType(kind), id);
  }

  /** After an event the tally has the event's votes in the class of its kind, in the total, and its quorum. */
  lemma EventTally(cache: VoteCache, e: VoteEvent, kind: VoteClass, chain: ChainAnswers)
    ensures var proposal, after := (e.contract, e.proposalId), AfterEvent(cache, e, kind, chain).tallies;
      && proposal in after
      && var v, w := if proposal in cache.tallies then cache.tallies[proposal] else chain.tally, after[proposal];
         && w.upVotes == v.upVotes + (if kind == Up then e.nrVotes else 0)
         && w.downVotes == v.downVotes + (if kind == Down then e.nrVotes else 0)
         && w.downVetoVotes == v.downVetoVotes + (if kind == DownVeto then e.nrVotes else 0)
         && w.abstainVotes == v.abstainVotes + (if kind == Abstain then e.nrVotes else 0)
         && (v.totalVotes.Value? ==> w.totalVotes == Value(v.totalVotes.n + e.nrVotes))
         && w.quorum == v.quorum + e.quorumUsed
  {
  }

  /**
   * After an event the user's list of proposals has what it had, or what the contract answered,
   * and the event's proposal.
   */
  lemma EventVotedList(cache: VoteCache, e: VoteEvent, kind: VoteClass, chain: ChainAnswers)
    ensures var user, after := (e.contract, e.voter), AfterEvent(cache, e, kind, chain).votedProposals;
      && user in after && Distinct(after[user])
      && var before := if user in cache.votedProposals then cache.votedProposals[user] else chain.votedProposals;
         forall id: nat :: id in after[user] <==> id in before || id == e.proposalId
  {
  }

  class GovernanceHandlerService {
    var invalidatedKeys: seq<GovernanceKey>
    var cache: VoteCache
    var published: seq<seq<GovernanceKey>>

    constructor (cache: VoteCache)
      ensures this.cache == cache && invalidatedKeys == [] && published == []
    {
      this.cache := cache;
      invalidatedKeys, published := [], [];
    }

    method HandleGovernanceVoteEvent(e: VoteEvent, kind: VoteClass, chain: ChainAnswers)
      modifies this
      ensures cache == AfterEvent(old(cache), e, kind, chain)
      ensures published == old(published) + [old(invalidatedKeys) +
                [UserVotedProposals(e.contract, e.voter), UserVoteTypesForContract(e.contract, e.voter),
                 CacheKey.ProposalVotes(e.contract, e.proposalId)]]
      ensures invalidatedKeys == []
    {
      AddVotedProposal(e, chain);
      AddVoteType(e, kind);
      var tally := IncreaseProposalVotes(e, kind, chain);
      cache := cache.(tallies := cache.tallies[(e.contract, e.proposalId) := tally]);
      invalidatedKeys := invalidatedKeys + [CacheKey.ProposalVotes(e.contract, e.proposalId)];
      PushedKeys(old(invalidatedKeys), e);
      DeleteCacheKeys();
    }

    /** The first part: the list of proposals the user voted on. */
    method AddVotedProposal(e: VoteEvent, chain: ChainAnswers)
      modifies this`cache, this`invalidatedKeys
      ensures cache == VotedProposalsAfter(old(cache), e, chain)
      ensures invalidatedKeys == old(invalidatedKeys) + [UserVotedProposals(e.contract, e.voter)]
    {
      var user := (e.contract, e.voter);
      var voted := if user in cache.votedProposals then cache.votedProposals[user] else chain.votedProposals;
      voted := voted + [e.proposalId];
      cache := cache.(votedProposals := cache.votedProposals[user := Unique(voted)]);
      invalidatedKeys := invalidatedKeys + [UserVotedProposals(e.contract, e.voter)];
    }

    /** The second part: the list of the user's votes on the contract. */
    method AddVoteType(e: VoteEvent, kind: VoteClass)
      modifies this`cache, this`invalidatedKeys
      ensures cache == VoteTypesAfter(old(cache), e, kind)
      ensures invalidatedKeys == old(invalidatedKeys) + [UserVoteTypesForContract(e.contract, e.voter)]
    {
      var user := (e.contract, e.voter);
      var types := if user in cache.voteTypes then cache.voteTypes[user] else [];
      var cachedVoteType := Position(types, e.proposalId);
      if cachedVoteType.None? {
        types := types + [UserVote(e.proposalId, ToVoteType(kind))];
      } else {
        types := types[cachedVoteType.value := types[cachedVoteType.value].(vote := ToVoteType(kind))];
      }
      cache := cache.(voteTypes := cache.voteTypes[user := types]);
      invalidatedKeys := invalidatedKeys + [UserVoteTypesForContract(e.contract, e.voter)];
    }

    method DeleteCacheKeys()
      modifies this`invalidatedKeys, this`published
      ensures published == old(published) + [old(invalidatedKeys)] && invalidatedKeys == []
    {
      published := published + [invalidatedKeys];
      invalidatedKeys := [];
    }

    method IncreaseProposalVotes(e: VoteEvent, kind: VoteClass, chain: ChainAnswers) returns (votes: ProposalVotes)
      ensures var proposal := (e.contract, e.proposalId);
        votes == Increase(if proposal in cache.tallies then cache.tallies[proposal] else chain.tally, VoteOf(e, kind))
    {
      var proposal := (e.contract, e.proposalId);
      votes := if proposal in cache.tallies then cache.tallies[proposal] else chain.tally;
      votes := votes.(totalVotes := PlusTotal(votes.totalVotes, e.nrVotes));
      votes := votes.(quorum := votes.quorum + e.quorumUsed);
      match kind {
        case Up => votes := votes.(upVotes := votes.upVotes + e.nrVotes);
        case Down => votes := votes.(downVotes := votes.downVotes + e.nrVotes);
        case Abstain => votes := votes.(abstainVotes := votes.abstainVotes + e.nrVotes);
        case DownVeto => votes := votes.(downVetoVotes := votes.downVetoVotes + e.nrVotes);
      }
      votes := votes.(upPercentage := Percent(votes.upVotes, votes.totalVotes));
      votes := votes.(downPercentage := Percent(votes.downVotes, votes.totalVotes));
      votes := votes.(abstainPercentage := Percent(votes.abstainVotes, votes.totalVotes));
      votes := votes.(downVetoPercentage := Percent(votes.downVetoVotes, votes.totalVotes));
    }
  }

  // ----- Runs of events over all contracts, users and proposals -----

  datatype Handled = Handled(event: VoteEvent, kind: VoteClass, chain: ChainAnswers)

  function AfterEvents(cache: VoteCache, run: seq<Handled>): VoteCache
    decreases |run|
  {
    if run == [] then cache
    else
      var last := run[|run| - 1];
      AfterEvent(AfterEvents(cache, run[..|run| - 1]), last.event, last.kind, last.chain)
  }

  /** The votes of a run that were cast on one proposal. */
  function VotesOn(run: seq<Handled>, contract: string, proposalId: nat): seq<Vote> {
    if run == [] then []
    else
      VotesOn(run[..|run| - 1], contract, proposalId) +
      var last := run[|run| - 1];
      if last.event.contract == contract && last.event.proposalId == proposalId
      then [VoteOf(last.event, last.kind)] else []
  }

  /** The votes of a run that one user cast on one contract. */
  function StepsBy(run: seq<Handled>, contract: string, user: string): seq<ListStep> {
    if run == [] then []
    else
      StepsBy(run[..|run| - 1], contract, user) +
      var last := run[|run| - 1];
      if last.event.contract == contract && last.event.voter == user
      then [Event(last.event.proposalId, ToVoteType(last.kind))] else []
  }

  lemma {:induction false} TallyAfterEvents(cache: VoteCache, run: seq<Handled>, contract: string, proposalId: nat)
    requires (contract, proposalId) in cache.tallies
    ensures (contract, proposalId) in AfterEvents(cache, run).tallies
    ensures AfterEvents(cache, run).tallies[(contract, proposalId)] ==
            IncreaseAll(cache.tallies[(contract, proposalId)], VotesOn(run, contract, proposalId))
    decreases |run|
  {
    if run != [] {
      TallyAfterEvents(cache, run[..|run| - 1], contract, proposalId);
      var last := run[|run| - 1];
      var votes, vote := VotesOn(run[..|run| - 1], contract, proposalId), VoteOf(last.event, last.kind);
      assert (votes + [vote])[..|votes|] == votes;
      assert votes + [] == votes;
    }
  }

  /**
   * Whatever other proposals, contracts and users the events were about: while the tally of a
   * proposal stays cached, it equals the one recomputed from the contract's accumulated
   * counts, unless votes were cast on it that leave a total of 0.
   */
  lemma CachedTallyIsRecomputed(cache: VoteCache, run: seq<Handled>, contract: string, proposalId: nat, c: VoteCounts)
    requires (contract, proposalId) in cache.tallies && cache.tallies[(contract, proposalId)] == TallyOf(c)
    ensures (contract, proposalId) in AfterEvents(cache, run).tallies
    ensures var votes := VotesOn(run, contract, proposalId);
      AfterEvents(cache, run).tallies[(contract, proposalId)] == TallyOf(AddVotes(c, votes)) <==>
      votes == [] || AddVotes(c, votes).Total() > 0
  {
    TallyAfterEvents(cache, run, contract, proposalId);
    IncrementalIsRecomputed(c, VotesOn(run, contract, proposalId));
  }

  /**
   * What the tally of a proposal starts from: the cached one, else what the first event on it
   * reads from the contract.
   */
  function StartOfTally(cache: VoteCache, run: seq<Handled>, contract: string, proposalId: nat): Option<ProposalVotes> {
    if run == [] then
      if (contract, proposalId) in cache.tallies then Some(cache.tallies[(contract, proposalId)]) else None
    else
      var before, last := StartOfTally(cache, run[..|run| - 1], contract, proposalId), run[|run| - 1];
      if before.None? && last.event.contract == contract && last.event.proposalId == proposalId
      then Some(last.chain.tally)
      else before
  }

  lemma {:induction false} TallyFromStart(cache: VoteCache, run: seq<Handled>, contract: string, proposalId: nat)
    ensures var start, after := StartOfTally(cache, run, contract, proposalId), AfterEvents(cache, run).tallies;
      && (start.Some? <==> (contract, proposalId) in after)
      && (start.None? ==> VotesOn(run, contract, proposalId) == [])
      && (start.Some? ==>
            after[(contract, proposalId)] == IncreaseAll(start.value, VotesOn(run, contract, proposalId)))
    decreases |run|
  {
    if run != [] {
      TallyFromStart(cache, run[..|run| - 1], contract, proposalId);
      var last := run[|run| - 1];
      var votes, vote := VotesOn(run[..|run| - 1], contract, proposalId), VoteOf(last.event, last.kind);
      assert (votes + [vote])[..|votes|] == votes;
      assert votes + [] == votes;
    }
  }

  /**
   * Cached at the start or not: the tally is the one recomputed from the accumulated counts
   * exactly when it started from the counts without the votes of the run, and no votes were
   * cast or their total is positive.
   */
  lemma TallyIsRightExactly(cache: VoteCache, run: seq<Handled>, contract: string, proposalId: nat,
                            started: VoteCounts, c: VoteCounts)
    requires StartOfTally(cache, run, contract, proposalId) == Some(TallyOf(started))
    ensures (contract, proposalId) in AfterEvents(cache, run).tallies
    ensures var votes := VotesOn(run, contract, proposalId);
      AfterEvents(cache, run).tallies[(contract, proposalId)] == TallyOf(AddVotes(c, votes)) <==>
      started == c && (votes == [] || AddVotes(c, votes).Total() > 0)
  {
    TallyFromStart(cache, run, contract, proposalId);
    IncrementalIsRightExactly(started, c, VotesOn(run, contract, proposalId));
  }

  /** On a miss, a contract that already counts the vote has it counted twice, unless the vote is for nothing. */
  lemma MissCountsTwice(cache: VoteCache, e: VoteEvent, kind: VoteClass, chain: ChainAnswers, c: VoteCounts)
    requires (e.contract, e.proposalId) !in cache.tallies && chain.tally == TallyOf(AddVote(c, VoteOf(e, kind)))
    ensures var after := AfterEvents(cache, [Handled(e, kind, chain)]).tallies;
      && (e.contract, e.proposalId) in after
      && (after[(e.contract, e.proposalId)] == TallyOf(AddVote(c, VoteOf(e, kind))) <==>
          e.nrVotes == 0 && e.quorumUsed == 0 && c.Total() > 0)
  {
    var run, vote := [Handled(e, kind, chain)], VoteOf(e, kind);
    OneEvent(cache, e, kind, chain);
    AddVotesOne(c, vote);
    AddVoteCounts(c, vote);
    TallyIsRightExactly(cache, run, e.contract, e.proposalId, AddVote(c, vote), c);
  }

  lemma OneEvent(cache: VoteCache, e: VoteEvent, kind: VoteClass, chain: ChainAnswers)
    requires (e.contract, e.proposalId) !in cache.tallies
    ensures var run := [Handled(e, kind, chain)];
      && StartOfTally(cache, run, e.contract, e.proposalId) == Some(chain.tally)
      && VotesOn(run, e.contract, e.proposalId) == [VoteOf(e, kind)]
  {
    assert [Handled(e, kind, chain)][..0] == [];
  }

  /** The cached list of a user's votes is that user's votes on that contract, applied in order. */
  lemma {:induction false} VoteTypesAfterEvents(cache: VoteCache, run: seq<Handled>, contract: string, user: string)
    requires (contract, user) in cache.voteTypes
    ensures (contract, user) in AfterEvents(cache, run).voteTypes
    ensures AfterEvents(cache, run).voteTypes[(contract, user)] ==
            ApplySteps(cache.voteTypes[(contract, user)], StepsBy(run, contract, user))
  {
    if run != [] {
      VoteTypesAfterEvents(cache, run[..|run| - 1], contract, user);
      var last := run[|run| - 1];
      var steps := StepsBy(run[..|run| - 1], contract, user);
      var step := Event(last.event.proposalId, ToVoteType(last.kind));
      assert (steps + [step])[..|steps|] == steps;
      assert steps + [] == steps;
    }
  }

  /**
   * The event on a proposal that is the last of its user in a run decides the vote listed, cached
   * at the start or not.
   */
  lemma {:induction false} LastEventIsListed(cache: VoteCache, run: seq<Handled>, i: nat)
    requires i < |run|
    requires forall j | i < j < |run| ::
               run[j].event.contract != run[i].event.contract || run[j].event.voter != run[i].event.voter ||
               run[j].event.proposalId != run[i].event.proposalId
    ensures var e, after := run[i].event, AfterEvents(cache, run).voteTypes;
      && (e.contract, e.voter) in after
      && Lookup(after[(e.contract, e.voter)], e.proposalId).Some?
      && IsTypeOf(Lookup(after[(e.contract, e.voter)], e.proposalId).value, run[i].kind)
  {
    var most, last := run[..|run| - 1], run[|run| - 1];
    var before := AfterEvents(cache, most);
    EventVote(before, last.event, last.kind, last.chain, run[i].event.proposalId);
    if i < |most| {
      LastEventIsListed(cache, most, i);
    }
  }

  /** What a user's list of proposals starts from: the cached one, else what the first event of the user reads. */
  function StartOfVoted(cache: VoteCache, run: seq<Handled>, contract: string, user: string): Option<seq<nat>> {
    if run == [] then
      if (contract, user) in cache.votedProposals then Some(cache.votedProposals[(contract, user)]) else None
    else
      var before, last := StartOfVoted(cache, run[..|run| - 1], contract, user), run[|run| - 1];
      if before.None? && last.event.contract == contract && last.event.voter == user
      then Some(last.chain.votedProposals)
      else before
  }

  predicate VotedIn(run: seq<Handled>, contract: string, user: string, id: nat) {
    exists i | 0 <= i < |run| ::
      run[i].event.contract == contract && run[i].event.voter == user && run[i].event.proposalId == id
  }

  lemma VotedInSnoc(most: seq<Handled>, last: Handled, contract: string, user: string, id: nat)
    ensures VotedIn(most + [last], contract, user, id) <==>
            || VotedIn(most, contract, user, id)
            || (last.event.contract == contract && last.event.voter == user && last.event.proposalId == id)
  {
    var all := most + [last];
    assert all[|most|] == last;
    if VotedIn(most, contract, user, id) {
      var i :| 0 <= i < |most| && most[i].event.contract == contract && most[i].event.voter == user &&
        most[i].event.proposalId == id;
      assert all[i] == most[i];
    }
  }

  /** The list has what it started from and every proposal the user voted on in the run, and nothing else. */
  lemma {:induction false} VotedListExactly(cache: VoteCache, run: seq<Handled>,
                                            contract: string, user: string, id: nat)
    ensures var start, after := StartOfVoted(cache, run, contract, user), AfterEvents(cache, run).votedProposals;
      && (start.Some? <==> (contract, user) in after)
      && (start.None? ==> !VotedIn(run, contract, user, id))
      && (start.Some? ==>
            (id in after[(contract, user)] <==> id in start.value || VotedIn(run, contract, user, id)))
    decreases |run|
  {
    if run != [] {
      var most, last := run[..|run| - 1], run[|run| - 1];
      VotedListExactly(cache, most, contract, user, id);
      assert run == most + [last];
      VotedInSnoc(most, last, contract, user, id);
      EventListed(AfterEvents(cache, most), last, contract, user, id);
    }
  }

  /** What one event does to a user's list of proposals, on this contract or another. */
  lemma EventListed(cache: VoteCache, h: Handled, contract: string, user: string, id: nat)
    ensures var key, its := (contract, user), h.event.contract == contract && h.event.voter == user;
      var before, after := cache.votedProposals, AfterEvent(cache, h.event, h.kind, h.chain).votedProposals;
      && (key in after <==> key in before || its)
      && (key in before ==> (id in after[key] <==> id in before[key] || (its && id == h.event.proposalId)))
      && (key !in before && its ==> (id in after[key] <==> id in h.chain.votedProposals || id == h.event.proposalId))
  {
    EventVotedList(cache, h.event, h.kind, h.chain);
  }

  /** Every proposal voted on in a run is listed for its voter, once. */
  lemma {:induction false} VotedProposalsAfterEvents(cache: VoteCache, run: seq<Handled>, i: nat)
    requires i < |run|
    ensures var e := run[i].event;
      && (e.contract, e.voter) in AfterEvents(cache, run).votedProposals
      && var list := AfterEvents(cache, run).votedProposals[(e.contract, e.voter)];
         e.proposalId in list && Distinct(list)
  {
    if i < |run| - 1 {
      VotedProposalsAfterEvents(cache, run[..|run| - 1], i);
    }
  }
}
