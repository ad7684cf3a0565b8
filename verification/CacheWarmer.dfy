/**
 * The warm pass over on-chain governance: configuration, proposals, statuses, votes and the
 * list of all proposals are read from a fixed chain state, written to the cache, and the
 * written keys published, stage by stage. Any read that fails ends the pass there.
 */
module CacheWarmer {
  import opened Wrappers
  import opened VoteTally
  import opened CacheKey

  datatype Status = NoStatus | Pending | Active | Defeated | DefeatedWithVeto | Succeeded | PendingClose

  datatype ProposalInfo = ProposalInfo(
    nonce: nat, commitHash: string, startVoteEpoch: nat, endVoteEpoch: nat, quorumStake: nat,
    numYesVotes: nat, numNoVotes: nat, numVetoVotes: nat, numAbstainVotes: nat,
    isClosed: bool, isPassed: bool)

  /** The last nonce as the configuration holds it; anything but a positive integer counts as 0. */
  datatype Nonce = Integer(n: int) | NotInteger

  datatype Config = Config(lastProposalNonce: Nonce, minQuorum: nat)

  /** Proposals by nonce. */
  type Proposals = m: map<nat, ProposalInfo> | forall n | n in m :: m[n].nonce == n
    witness map[]

  /**
   * The answers a pass gets; a missing one is a failing read. The current epoch is asked for
   * once for each open proposal; `early` and `late` are what a list entry needs beside the
   * proposal and its status, asked for before and after the status.
   */
  datatype Chain = Chain(
    config: Option<Config>,
    proposals: Proposals,
    epochs: map<nat, nat>,
    early: map<nat, string>,
    late: map<nat, string>)

  datatype Listed = Listed(info: ProposalInfo, status: Status, early: string, late: string)

  datatype WarmCache = WarmCache(
    config: Option<Config>,
    proposals: map<nat, ProposalInfo>,
    statuses: map<nat, Status>,
    votes: map<nat, ProposalVotes>,
    list: Option<seq<Listed>>)

  /** A cache holds every proposal under its own nonce. */
  type Cache = c: WarmCache | forall n | n in c.proposals :: c.proposals[n].nonce == n
    witness WarmCache(None, map[], map[], map[], None)

  const THRESHOLD: nat := 200

  function LastNonce(config: Config): (n: nat)
    ensures n <= 200
    ensures n > 0 <==> config.lastProposalNonce.Integer? && config.lastProposalNonce.n > 0
    ensures n > 0 ==> n <= config.lastProposalNonce.n && (n < config.lastProposalNonce.n ==> n == 200)
  {
    match config.lastProposalNonce
    case NotInteger => 0
    case Integer(i) => if i <= 0 then 0 else if i > THRESHOLD then THRESHOLD else i
  }

  function StatusOf(p: ProposalInfo, epoch: nat): Status {
    if p.isPassed then Succeeded
    else if p.isClosed && !p.isPassed then Defeated
    else if p.startVoteEpoch <= epoch <= p.endVoteEpoch && !p.isClosed then Active
    else if epoch > p.endVoteEpoch && !p.isClosed then PendingClose
    else if epoch < p.startVoteEpoch then Pending
    else NoStatus
  }

  /** A proposal that is closed or passed has its outcome; an open one is pending, active or waiting to be closed. */
  lemma StatusIsDecided(p: ProposalInfo, epoch: nat)
    ensures StatusOf(p, epoch) == Succeeded <==> p.isPassed
    ensures StatusOf(p, epoch) == Defeated <==> p.isClosed && !p.isPassed
    ensures StatusOf(p, epoch) in {Pending, Active, PendingClose} <==> !p.isClosed && !p.isPassed
  {
  }

  /** How far an open proposal has come. */
  function Phase(status: Status): nat {
    match status
    case Pending => 0
    case Active => 1
    case _ => 2
  }

  /**
   * As epochs pass an open proposal moves from pending to active to waiting to be closed and
   * never back, and it is active in exactly the epochs of its voting period, if there are any.
   */
  lemma StatusAdvances(p: ProposalInfo, epoch: nat, later: nat)
    requires !p.isClosed && !p.isPassed && epoch <= later
    ensures Phase(StatusOf(p, epoch)) <= Phase(StatusOf(p, later))
    ensures StatusOf(p, 0) == Pending <==> p.startVoteEpoch > 0
    ensures StatusOf(p, p.endVoteEpoch + 1) == PendingClose
    ensures StatusOf(p, epoch) == Active <==> p.startVoteEpoch <= epoch <= p.endVoteEpoch
  {
  }

  /** What the service finds out: closed and passed proposals need no epoch, and others fail without it. */
  function StatusRead(p: ProposalInfo, epochs: map<nat, nat>): (r: Option<Status>)
    ensures p.isPassed || p.isClosed ==> forall epoch :: r == Some(StatusOf(p, epoch))
    ensures !p.isPassed && !p.isClosed ==> r == if p.nonce in epochs then Some(StatusOf(p, epochs[p.nonce])) else None
  {
    if p.isPassed then Some(Succeeded)
    else if p.isClosed && !p.isPassed then Some(Defeated)
    else if p.nonce !in epochs then None
    else Some(StatusOf(p, epochs[p.nonce]))
  }

  function CountsOf(p: ProposalInfo): VoteCounts {
    VoteCounts(p.numYesVotes, p.numNoVotes, p.numVetoVotes, p.numAbstainVotes, p.quorumStake)
  }

  // ----- What a pass writes -----

  /** The list holds the proposals 1, 2, ... */
  ghost predicate MatchesChain(source: Proposals, ps: seq<ProposalInfo>) {
    forall n: nat | 1 <= n <= |ps| :: n in source && source[n] == ps[n - 1]
  }

  /** The nonces are 1, 2, ... */
  predicate Numbered(ps: seq<ProposalInfo>) {
    forall i | 0 <= i < |ps| :: ps[i].nonce == i + 1
  }

  lemma MatchingIsNumbered(source: Proposals, ps: seq<ProposalInfo>)
    requires MatchesChain(source, ps)
    ensures Numbered(ps)
  {
    forall i | 0 <= i < |ps|
      ensures ps[i].nonce == i + 1
    {
      var n: nat := i + 1;
      assert n in source && source[n] == ps[n - 1];
    }
  }

  lemma MatchesChainSnoc(source: Proposals, ps: seq<ProposalInfo>)
    requires MatchesChain(source, ps) && |ps| + 1 in source
    ensures MatchesChain(source, ps + [source[|ps| + 1]])
  {
  }

  /** Entries 1, 2, ... are these values. */
  ghost predicate Holds<V>(entries: map<nat, V>, values: seq<V>) {
    forall n: nat | 1 <= n <= |values| :: n in entries && entries[n] == values[n - 1]
  }

  /** The proposals 1 to n, up to the first one that cannot be read. */
  function Fetched(source: Proposals, n: nat): (ps: seq<ProposalInfo>)
    ensures |ps| <= n
    ensures MatchesChain(source, ps)
    ensures |ps| < n ==> |ps| + 1 !in source
  {
    if n == 0 then []
    else
      var ps := Fetched(source, n - 1);
      if |ps| == n - 1 && n in source then ps + [source[n]] else ps
  }

  /** The statuses of the proposals, up to the first one that cannot be found out. */
  function StatusesRead(ps: seq<ProposalInfo>, epochs: map<nat, nat>): (r: seq<Status>)
    ensures |r| <= |ps|
    ensures forall i | 0 <= i < |r| :: StatusRead(ps[i], epochs) == Some(r[i])
    ensures |r| < |ps| ==> StatusRead(ps[|r|], epochs).None?
  {
    if ps == [] then []
    else
      var most, last := ps[..|ps| - 1], ps[|ps| - 1];
      var r := StatusesRead(most, epochs);
      if |r| == |most| && StatusRead(last, epochs).Some? then r + [StatusRead(last, epochs).value] else r
  }

  /** While no epoch can be read, the statuses found out are those of the leading closed or passed proposals. */
  lemma EpochOutage(ps: seq<ProposalInfo>, k: nat)
    requires k <= |ps|
    ensures |StatusesRead(ps, map[])| == k <==>
            (forall i | 0 <= i < k :: ps[i].isClosed || ps[i].isPassed) &&
            (k < |ps| ==> !ps[k].isClosed && !ps[k].isPassed)
  {
    var r := StatusesRead(ps, map[]);
    forall i | 0 <= i < |r|
      ensures ps[i].isClosed || ps[i].isPassed
    {
      assert StatusRead(ps[i], map[]) == Some(r[i]);
    }
  }

  function VotesOf(ps: seq<ProposalInfo>): (r: seq<ProposalVotes>)
    ensures |r| == |ps|
  {
    if ps == [] then [] else VotesOf(ps[..|ps| - 1]) + [TallyOf(CountsOf(ps[|ps| - 1]))]
  }

  lemma {:induction false} VotesOfAt(ps: seq<ProposalInfo>, i: nat)
    requires i < |ps|
    ensures VotesOf(ps)[i] == TallyOf(CountsOf(ps[i]))
  {
    if i < |ps| - 1 {
      VotesOfAt(ps[..|ps| - 1], i);
    }
  }

  lemma VotesOfSnoc(ps: seq<ProposalInfo>, n: nat)
    requires n < |ps|
    ensures VotesOf(ps[..n + 1]) == VotesOf(ps[..n]) + [TallyOf(CountsOf(ps[n]))]
  {
    assert ps[..n + 1][..n] == ps[..n];
  }

  /** An entry of the list, if everything it needs can be read. */
  function Entry(chain: Chain, p: ProposalInfo, status: Option<Status>): Option<Listed> {
    if p.nonce in chain.early && status.Some? && p.nonce in chain.late
    then Some(Listed(p, status.value, chain.early[p.nonce], chain.late[p.nonce]))
    else None
  }

  predicate Listable(chain: Chain, ps: seq<ProposalInfo>) {
    forall i | 0 <= i < |ps| :: ps[i].nonce in chain.early && ps[i].nonce in chain.late
  }

  function ListOf(chain: Chain, ps: seq<ProposalInfo>, statuses: seq<Status>): (r: seq<Listed>)
    requires |statuses| == |ps| && Listable(chain, ps)
    ensures |r| == |ps| && forall i | 0 <= i < |ps| :: Some(r[i]) == Entry(chain, ps[i], Some(statuses[i]))
  {
    seq(|ps|, i requires 0 <= i < |ps| => Entry(chain, ps[i], Some(statuses[i])).value)
  }

  /** The list holds the proposals in order, each with its own status and what is told of its own nonce. */
  predicate IsListOf(list: seq<Listed>, chain: Chain, ps: seq<ProposalInfo>, statuses: seq<Status>) {
    && |list| == |ps| == |statuses|
    && forall i | 0 <= i < |ps| ::
         && list[i].info == ps[i] && list[i].status == statuses[i]
         && ps[i].nonce in chain.early && list[i].early == chain.early[ps[i].nonce]
         && ps[i].nonce in chain.late && list[i].late == chain.late[ps[i].nonce]
  }

  lemma ListOfIs(chain: Chain, ps: seq<ProposalInfo>, statuses: seq<Status>)
    requires |statuses| == |ps| && Listable(chain, ps)
    ensures IsListOf(ListOf(chain, ps, statuses), chain, ps, statuses)
  {
    var list := ListOf(chain, ps, statuses);
    forall i | 0 <= i < |ps|
      ensures Some(list[i]) == Entry(chain, ps[i], Some(statuses[i]))
    {
    }
  }

  /** The tally holds the proposal's own votes of each class, and its quorum. */
  predicate IsTallyOf(v: ProposalVotes, p: ProposalInfo) {
    && v.upVotes == p.numYesVotes && v.downVotes == p.numNoVotes
    && v.downVetoVotes == p.numVetoVotes && v.abstainVotes == p.numAbstainVotes
    && v.totalVotes == Value(p.numYesVotes + p.numNoVotes + p.numVetoVotes + p.numAbstainVotes)
    && v.quorum == p.quorumStake
  }

  lemma VotesAre(ps: seq<ProposalInfo>, i: nat)
    requires i < |ps|
    ensures IsTallyOf(VotesOf(ps)[i], ps[i])
  {
    VotesOfAt(ps, i);
    TallyIs(CountsOf(ps[i]));
  }

  lemma AllVotesAre(ps: seq<ProposalInfo>)
    ensures forall i | 0 <= i < |ps| :: IsTallyOf(VotesOf(ps)[i], ps[i])
  {
    forall i | 0 <= i < |ps|
      ensures IsTallyOf(VotesOf(ps)[i], ps[i])
    {
      VotesAre(ps, i);
    }
  }

  /** Entries 1, 2, ... overwritten with these values. */
  function Write<V>(before: map<nat, V>, values: seq<V>): map<nat, V> {
    if values == [] then before
    else Write(before, values[..|values| - 1])[|values| := values[|values| - 1]]
  }

  lemma {:induction false} WriteAt<V>(before: map<nat, V>, values: seq<V>)
    ensures forall k: nat :: k in Write(before, values) <==> k in before || 1 <= k <= |values|
    ensures Holds(Write(before, values), values)
    ensures forall k: nat | k in before && !(1 <= k <= |values|) :: Write(before, values)[k] == before[k]
  {
    if values != [] {
      WriteAt(before, values[..|values| - 1]);
    }
  }

  ghost predicate SameEntry<V>(a: map<nat, V>, b: map<nat, V>, k: nat) {
    (k in a <==> k in b) && (k in a ==> a[k] == b[k])
  }

  lemma WriteChangesExactly<V>(before: map<nat, V>, values: seq<V>, k: nat)
    ensures SameEntry(before, Write(before, values), k) <==>
            !(1 <= k <= |values|) || (k in before && before[k] == values[k - 1])
  {
    WriteAt(before, values);
  }

  lemma WriteSnoc<V>(before: map<nat, V>, values: seq<V>, v: V)
    ensures Write(before, values + [v]) == Write(before, values)[|values| + 1 := v]
  {
    assert (values + [v])[..|values|] == values;
  }

  lemma WriteTwice<V>(before: map<nat, V>, values: seq<V>)
    ensures Write(Write(before, values), values) == Write(before, values)
  {
    WriteAt(before, values);
    WriteAt(Write(before, values), values);
  }

  function AfterProposals(cache: WarmCache, ps: seq<ProposalInfo>): WarmCache {
    cache.(proposals := Write(cache.proposals, ps))
  }

  function AfterStatuses(cache: WarmCache, statuses: seq<Status>): WarmCache {
    cache.(statuses := Write(cache.statuses, statuses))
  }

  function AfterVotes(cache: WarmCache, ps: seq<ProposalInfo>): WarmCache {
    cache.(votes := Write(cache.votes, VotesOf(ps)))
  }

  /**
   * What a pass read: how many proposals it should, those it could, their statuses, and the list
   * if all of it could be read.
   */
  datatype Reading = Reading(
    last: nat,
    proposals: seq<ProposalInfo>,
    statuses: seq<Status>,
    list: Option<seq<Listed>>)
  {
    predicate ProposalsFail() {
      |proposals| < last
    }

    predicate StatusesFail() {
      !ProposalsFail() && |statuses| < |proposals|
    }

    predicate Decided() {
      !ProposalsFail() && !StatusesFail()
    }

    predicate Complete() {
      Decided() && list.Some?
    }
  }

  /** The reading of a pass over a chain whose configuration can be read. */
  function ReadingOf(chain: Chain): (r: Reading)
    requires chain.config.Some?
    ensures |r.statuses| <= |r.proposals| <= r.last
  {
    var last := LastNonce(chain.config.value);
    var ps := Fetched(chain.proposals, last);
    var statuses := StatusesRead(ps, chain.epochs);
    Reading(last, ps, statuses,
            if |statuses| == |ps| && Listable(chain, ps) then Some(ListOf(chain, ps, statuses)) else None)
  }

  predicate Complete(chain: Chain) {
    chain.config.Some? && ReadingOf(chain).Complete()
  }

  /** What the stages write after the configuration: each what it read, up to the read that failed. */
  function AfterStages(cache: WarmCache, r: Reading): WarmCache {
    WarmCache(
      cache.config,
      Write(cache.proposals, r.proposals),
      if r.ProposalsFail() then cache.statuses else Write(cache.statuses, r.statuses),
      if r.Decided() then Write(cache.votes, VotesOf(r.proposals)) else cache.votes,
      if r.Complete() then r.list else cache.list)
  }

  /** The last two stages, if all statuses were found out. */
  function AfterDeciding(cache: WarmCache, r: Reading): WarmCache {
    if !r.Decided() then cache
    else AfterVotes(cache, r.proposals).(list := if r.list.Some? then r.list else cache.list)
  }

  /** The cache after a pass, wherever it ended. */
  function AfterPass(cache: WarmCache, chain: Chain): WarmCache {
    if chain.config.None? then cache else AfterStages(cache.(config := chain.config), ReadingOf(chain))
  }

  function ProposalKeys(n: nat): seq<GovernanceKey> {
    seq(n, i requires 0 <= i < n => GetProposal(i + 1))
  }

  lemma ProposalKeysSnoc(n: nat)
    ensures ProposalKeys(n + 1) == ProposalKeys(n) + [GetProposal(n + 1)]
  {
  }

  function StatusKeys(contract: string, n: nat): seq<GovernanceKey> {
    seq(n, i requires 0 <= i < n => ProposalStatus(contract, i + 1))
  }

  function VotesKeys(contract: string, n: nat): seq<GovernanceKey> {
    seq(n, i requires 0 <= i < n => CacheKey.ProposalVotes(contract, i + 1))
  }

  lemma VotesKeysSnoc(contract: string, n: nat)
    ensures VotesKeys(contract, n + 1) == VotesKeys(contract, n) + [CacheKey.ProposalVotes(contract, n + 1)]
  {
  }

  lemma StatusKeysSnoc(contract: string, n: nat)
    ensures StatusKeys(contract, n + 1) == StatusKeys(contract, n) + [ProposalStatus(contract, n + 1)]
  {
  }

  /** What is published after the statuses: the keys of the votes, and of the list if it was made. */
  function PublishedLast(contract: string, last: nat, listed: bool): seq<seq<GovernanceKey>> {
    if listed then [VotesKeys(contract, last), [Proposals(contract)]] else [VotesKeys(contract, last)]
  }

  /** What is published after the proposals: the keys of every stage that was finished. */
  function PublishedLater(contract: string, r: Reading): seq<seq<GovernanceKey>> {
    if !r.Decided() then [] else [StatusKeys(contract, r.last)] + PublishedLast(contract, r.last, r.list.Some?)
  }

  function PublishedStages(contract: string, r: Reading): seq<seq<GovernanceKey>> {
    if r.ProposalsFail() then [[GetConfig]] else [[GetConfig], ProposalKeys(r.last)] + PublishedLater(contract, r)
  }

  lemma AppendAnd<T>(before: seq<T>, x: T, rest: seq<T>)
    ensures before + [x] + rest == before + ([x] + rest)
  {
  }

  lemma AppendTwoAnd<T>(before: seq<T>, x: T, y: T, rest: seq<T>)
    ensures before + [x] + [y] + rest == before + ([x, y] + rest)
  {
  }

  function PublishedBy(contract: string, chain: Chain): seq<seq<GovernanceKey>> {
    if chain.config.None? then [] else PublishedStages(contract, ReadingOf(chain))
  }

  // ----- What the writes amount to -----

  /**
   * After a complete pass, from any cache: the cached proposals 1 to the last nonce (200 at
   * most) are the chain's, statuses and votes derive from them, and the cached list holds
   * those proposals with those statuses in nonce order.
   */
  lemma CompletePassMirrorsChain(cache: WarmCache, chain: Chain)
    requires Complete(chain)
    ensures var warm, ps, statuses := AfterPass(cache, chain), ReadingOf(chain).proposals, ReadingOf(chain).statuses;
      && warm.config == chain.config
      && |ps| == |statuses| == LastNonce(chain.config.value) && MatchesChain(chain.proposals, ps)
      && Holds(warm.proposals, ps)
      && Holds(warm.statuses, statuses)
      && (forall i | 0 <= i < |ps| :: StatusRead(ps[i], chain.epochs) == Some(statuses[i]))
      && Holds(warm.votes, VotesOf(ps))
      && (forall i | 0 <= i < |ps| :: IsTallyOf(VotesOf(ps)[i], ps[i]))
      && warm.list.Some? && IsListOf(warm.list.value, chain, ps, statuses)
  {
    var r := ReadingOf(chain);
    WriteAt(cache.proposals, r.proposals);
    WriteAt(cache.statuses, r.statuses);
    WriteAt(cache.votes, VotesOf(r.proposals));
    AllVotesAre(r.proposals);
    ListOfIs(chain, r.proposals, r.statuses);
  }

  /** Wherever a pass ends, what it read is in the cache: the proposals, and the statuses up to the one that failed. */
  lemma CutPassMirrorsWhatItRead(cache: WarmCache, chain: Chain)
    requires chain.config.Some?
    ensures var warm, r := AfterPass(cache, chain), ReadingOf(chain);
      && Holds(warm.proposals, r.proposals)
      && (!r.ProposalsFail() ==> Holds(warm.statuses, r.statuses))
      && (r.ProposalsFail() ==> warm.statuses == cache.statuses)
      && (!r.Decided() ==> warm.votes == cache.votes)
      && (!r.Complete() ==> warm.list == cache.list)
  {
    WriteAt(cache.proposals, ReadingOf(chain).proposals);
    WriteAt(cache.statuses, ReadingOf(chain).statuses);
  }

  /** A second pass over the same chain state changes nothing, wherever the first one ended. */
  lemma PassIsIdempotent(cache: WarmCache, chain: Chain)
    ensures AfterPass(AfterPass(cache, chain), chain) == AfterPass(cache, chain)
  {
    if chain.config.Some? {
      StagesAreIdempotent(cache.(config := chain.config), ReadingOf(chain));
    }
  }

  lemma StagesAreIdempotent(cache: WarmCache, r: Reading)
    ensures AfterStages(AfterStages(cache, r), r) == AfterStages(cache, r)
    ensures AfterStages(cache, r).config == cache.config
  {
    WriteTwice(cache.proposals, r.proposals);
    WriteTwice(cache.statuses, r.statuses);
    WriteTwice(cache.votes, VotesOf(r.proposals));
  }

  // ----- Which changes are published -----

  /** What is cached under a key is the same in both caches. */
  ghost predicate SameAt(a: WarmCache, b: WarmCache, contract: string, key: GovernanceKey) {
    match key
    case GetConfig => a.config == b.config
    case GetProposal(n) => SameEntry(a.proposals, b.proposals, n)
    case ProposalStatus(c, n) => c == contract ==> SameEntry(a.statuses, b.statuses, n)
    case ProposalVotes(c, n) => c == contract ==> SameEntry(a.votes, b.votes, n)
    case Proposals(c) => c == contract ==> a.list == b.list
    case _ => true
  }

  ghost predicate Published(published: seq<seq<GovernanceKey>>, key: GovernanceKey) {
    exists i, j :: 0 <= i < |published| && 0 <= j < |published[i]| && published[i][j] == key
  }

  lemma KeyPublishedAt(published: seq<seq<GovernanceKey>>, key: GovernanceKey, i: nat, j: nat)
    requires i < |published| && j < |published[i]| && published[i][j] == key
    ensures Published(published, key)
  {
  }

  /** The keys that the stages write under, up to the read that failed. */
  predicate Written(contract: string, r: Reading, key: GovernanceKey) {
    match key
    case GetConfig => true
    case GetProposal(k) => 1 <= k <= |r.proposals|
    case ProposalStatus(c, k) => c == contract && !r.ProposalsFail() && 1 <= k <= |r.statuses|
    case ProposalVotes(c, k) => c == contract && r.Decided() && 1 <= k <= |r.proposals|
    case Proposals(c) => c == contract && r.Complete()
    case _ => false
  }

  /** The keys of the stage that failed before it published what it had written. */
  predicate Hidden(r: Reading, key: GovernanceKey) {
    (r.ProposalsFail() && key.GetProposal?) || (r.StatusesFail() && key.ProposalStatus?)
  }

  /** The stages have set another value under this key of a proposal or a status. */
  predicate Changes(contract: string, cache: WarmCache, r: Reading, key: GovernanceKey) {
    match key
    case GetProposal(k) =>
      1 <= k <= |r.proposals| && !(k in cache.proposals && cache.proposals[k] == r.proposals[k - 1])
    case ProposalStatus(c, k) =>
      c == contract && 1 <= k <= |r.statuses| && !(k in cache.statuses && cache.statuses[k] == r.statuses[k - 1])
    case _ => false
  }

  lemma WrittenIsPublished(contract: string, r: Reading, key: GovernanceKey)
    requires |r.statuses| <= |r.proposals| <= r.last
    requires Written(contract, r, key) && !Hidden(r, key)
    ensures Published(PublishedStages(contract, r), key)
  {
    var published := PublishedStages(contract, r);
    match key
    case GetConfig => KeyPublishedAt(published, key, 0, 0);
    case GetProposal(k) => KeyPublishedAt(published, key, 1, k - 1);
    case ProposalStatus(c, k) => KeyPublishedAt(published, key, 2, k - 1);
    case ProposalVotes(c, k) => KeyPublishedAt(published, key, 3, k - 1);
    case Proposals(c) => KeyPublishedAt(published, key, 4, 0);
  }

  /** Nothing is published but the keys written under, and of these all but the hidden ones. */
  lemma PublishedExactly(contract: string, r: Reading, key: GovernanceKey)
    requires |r.statuses| <= |r.proposals| <= r.last
    ensures Published(PublishedStages(contract, r), key) <==> Written(contract, r, key) && !Hidden(r, key)
  {
    if Written(contract, r, key) && !Hidden(r, key) {
      WrittenIsPublished(contract, r, key);
    }
  }

  /** A complete pass publishes stage by stage, each stage in nonce order. */
  lemma PublishedInOrder(contract: string, chain: Chain)
    requires Complete(chain)
    ensures var published, n := PublishedBy(contract, chain), |ReadingOf(chain).proposals|;
      && |published| == 5
      && published[0] == [GetConfig] && published[4] == [Proposals(contract)]
      && |published[1]| == |published[2]| == |published[3]| == n
      && forall i | 0 <= i < n ::
           && published[1][i] == GetProposal(i + 1)
           && published[2][i] == ProposalStatus(contract, i + 1)
           && published[3][i] == CacheKey.ProposalVotes(contract, i + 1)
  {
    StagesInOrder(contract, ReadingOf(chain));
  }

  lemma StagesInOrder(contract: string, r: Reading)
    requires r.Complete() && |r.proposals| == r.last
    ensures var published := PublishedStages(contract, r);
      && |published| == 5
      && published[0] == [GetConfig] && published[4] == [Proposals(contract)]
      && |published[1]| == |published[2]| == |published[3]| == r.last
      && forall i | 0 <= i < r.last ::
           && published[1][i] == GetProposal(i + 1)
           && published[2][i] == ProposalStatus(contract, i + 1)
           && published[3][i] == CacheKey.ProposalVotes(contract, i + 1)
  {
  }

  lemma HiddenIsUnpublished(contract: string, r: Reading, key: GovernanceKey)
    requires Hidden(r, key)
    ensures !Published(PublishedStages(contract, r), key)
  {
  }

  lemma UnwrittenIsUnchanged(contract: string, cache: WarmCache, r: Reading, key: GovernanceKey)
    requires !Written(contract, r, key)
    ensures SameAt(cache, AfterStages(cache, r), contract, key)
  {
    match key
    case GetProposal(k) => WriteChangesExactly(cache.proposals, r.proposals, k);
    case ProposalStatus(c, k) => WriteChangesExactly(cache.statuses, r.statuses, k);
    case ProposalVotes(c, k) => WriteChangesExactly(cache.votes, VotesOf(r.proposals), k);
    case _ =>
  }

  lemma HiddenChange(contract: string, cache: WarmCache, r: Reading, key: GovernanceKey)
    requires Hidden(r, key)
    ensures SameAt(cache, AfterStages(cache, r), contract, key) <==> !Changes(contract, cache, r, key)
  {
    match key
    case GetProposal(k) => WriteChangesExactly(cache.proposals, r.proposals, k);
    case ProposalStatus(c, k) => WriteChangesExactly(cache.statuses, r.statuses, k);
  }

  lemma StagesHideExactly(contract: string, cache: WarmCache, r: Reading, key: GovernanceKey)
    requires |r.statuses| <= |r.proposals| <= r.last && key != GetConfig
    ensures !Published(PublishedStages(contract, r), key) && !SameAt(cache, AfterStages(cache, r), contract, key) <==>
            Hidden(r, key) && Changes(contract, cache, r, key)
  {
    if Hidden(r, key) {
      HiddenIsUnpublished(contract, r, key);
      HiddenChange(contract, cache, r, key);
    } else if Written(contract, r, key) {
      WrittenIsPublished(contract, r, key);
    } else {
      UnwrittenIsUnchanged(contract, cache, r, key);
    }
  }

  /**
   * For every pass, wherever it ends, exactly these changes are never published: if reading a
   * proposal failed, the changed ones of the proposals read before; if finding out a status
   * failed, the changed ones of the statuses found out before; otherwise none.
   */
  lemma HiddenChangesExactly(contract: string, cache: WarmCache, chain: Chain, key: GovernanceKey)
    ensures !Published(PublishedBy(contract, chain), key) && !SameAt(cache, AfterPass(cache, chain), contract, key) <==>
            chain.config.Some? && Hidden(ReadingOf(chain), key) && Changes(contract, cache, ReadingOf(chain), key)
  {
    if chain.config.Some? {
      var r := ReadingOf(chain);
      if key == GetConfig {
        WrittenIsPublished(contract, r, key);
      } else {
        StagesHideExactly(contract, cache.(config := chain.config), r, key);
        SameButConfig(cache, chain.config, AfterPass(cache, chain), contract, key);
      }
    }
  }

  lemma SameButConfig(cache: WarmCache, config: Option<Config>, other: WarmCache, contract: string, key: GovernanceKey)
    requires key != GetConfig
    ensures SameAt(cache.(config := config), other, contract, key) <==> SameAt(cache, other, contract, key)
  {
  }

  /** A complete pass publishes every key under which it changed anything. */
  lemma CompletePassPublishesItsChanges(contract: string, cache: WarmCache, chain: Chain, key: GovernanceKey)
    requires Complete(chain)
    ensures Published(PublishedBy(contract, chain), key) || SameAt(cache, AfterPass(cache, chain), contract, key)
  {
    HiddenChangesExactly(contract, cache, chain, key);
  }

  /**
   * A pass that reads all proposals while no epoch can be read hides exactly the changed statuses
   * of the leading closed or passed ones.
   */
  lemma EpochOutageHides(contract: string, cache: WarmCache, chain: Chain, id: nat)
    requires chain.config.Some? && chain.epochs == map[] && !ReadingOf(chain).ProposalsFail()
    ensures var ps, key := ReadingOf(chain).proposals, ProposalStatus(contract, id);
      !Published(PublishedBy(contract, chain), key) && !SameAt(cache, AfterPass(cache, chain), contract, key) <==>
      && (exists i :: 0 <= i < |ps| && !ps[i].isClosed && !ps[i].isPassed)
      && 1 <= id <= |ps| && (forall i | 0 <= i < id :: ps[i].isClosed || ps[i].isPassed)
      && !(id in cache.statuses && Some(cache.statuses[id]) == StatusRead(ps[id - 1], map[]))
  {
    OutageHides(contract, cache, ReadingOf(chain), id);
    HiddenChangesExactly(contract, cache, chain, ProposalStatus(contract, id));
  }

  lemma OutageHides(contract: string, cache: WarmCache, r: Reading, id: nat)
    requires r.statuses == StatusesRead(r.proposals, map[]) && !r.ProposalsFail()
    ensures var ps, key := r.proposals, ProposalStatus(contract, id);
      Hidden(r, key) && Changes(contract, cache, r, key) <==>
      && (exists i :: 0 <= i < |ps| && !ps[i].isClosed && !ps[i].isPassed)
      && 1 <= id <= |ps| && (forall i | 0 <= i < id :: ps[i].isClosed || ps[i].isPassed)
      && !(id in cache.statuses && Some(cache.statuses[id]) == StatusRead(ps[id - 1], map[]))
  {
    EpochOutage(r.proposals, |r.statuses|);
    if 1 <= id <= |r.statuses| {
      assert StatusRead(r.proposals[id - 1], map[]) == Some(r.statuses[id - 1]);
    }
  }

  // ----- Reading the list through the cache -----

  /** The status a reader sees: the cached one, else what can be found out. */
  function StatusThrough(statuses: map<nat, Status>, chain: Chain, p: ProposalInfo): Option<Status> {
    if p.nonce in statuses then Some(statuses[p.nonce]) else StatusRead(p, chain.epochs)
  }

  /** Every conversion that gets as far as the status leaves it cached, whatever becomes of the others. */
  function AfterConversions(statuses: map<nat, Status>, chain: Chain, ps: seq<ProposalInfo>): map<nat, Status> {
    if ps == [] then statuses
    else
      var before, last := AfterConversions(statuses, chain, ps[..|ps| - 1]), ps[|ps| - 1];
      var status := StatusThrough(before, chain, last);
      if last.nonce in chain.early && status.Some? then before[last.nonce := status.value] else before
  }

  /** The converted list, if every conversion comes to its end. */
  function Entries(statuses: map<nat, Status>, chain: Chain, ps: seq<ProposalInfo>): (r: Option<seq<Listed>>)
    ensures r.Some? <==> forall i | 0 <= i < |ps| :: Entry(chain, ps[i], StatusThrough(statuses, chain, ps[i])).Some?
    ensures r.Some? ==> |r.value| == |ps|
    ensures r.Some? ==>
              forall i | 0 <= i < |ps| ::
                Some(r.value[i]) == Entry(chain, ps[i], StatusThrough(statuses, chain, ps[i]))
  {
    if ps == [] then Some([])
    else
      var n := |ps| - 1;
      var most, last := Entries(statuses, chain, ps[..n]), Entry(chain, ps[n], StatusThrough(statuses, chain, ps[n]));
      if most.Some? && last.Some? then Some(most.value + [last.value]) else None
  }

  lemma EntriesAreList(known: map<nat, Status>, chain: Chain, ps: seq<ProposalInfo>, statuses: seq<Status>)
    requires |statuses| == |ps|
    requires forall i | 0 <= i < |ps| :: StatusThrough(known, chain, ps[i]) == Some(statuses[i])
    ensures Entries(known, chain, ps) == if Listable(chain, ps) then Some(ListOf(chain, ps, statuses)) else None
  {
    var r := Entries(known, chain, ps);
    if r.Some? {
      forall i | 0 <= i < |ps|
        ensures ps[i].nonce in chain.early && ps[i].nonce in chain.late
      {
        assert Some(r.value[i]) == Entry(chain, ps[i], StatusThrough(known, chain, ps[i]));
      }
      var list := ListOf(chain, ps, statuses);
      forall i | 0 <= i < |ps|
        ensures r.value[i] == list[i]
      {
        assert Some(r.value[i]) == Entry(chain, ps[i], Some(statuses[i])) == Some(list[i]);
      }
      assert r.value == list;
    }
  }

  lemma EntriesFail(known: map<nat, Status>, chain: Chain, ps: seq<ProposalInfo>, i: nat)
    requires i < |ps| && StatusThrough(known, chain, ps[i]).None?
    ensures Entries(known, chain, ps).None?
  {
    assert Entry(chain, ps[i], StatusThrough(known, chain, ps[i])).None?;
  }

  function ConfigThrough(cache: WarmCache, chain: Chain): Option<Config> {
    if cache.config.Some? then cache.config else chain.config
  }

  /** The proposals a reader sees: each cached one, else the chain's. */
  function ProposalsThrough(cache: Cache, chain: Chain): seq<ProposalInfo>
    requires ConfigThrough(cache, chain).Some?
  {
    Fetched(chain.proposals + cache.proposals, LastNonce(ConfigThrough(cache, chain).value))
  }

  /** What reading the list leaves in the cache, once all conversions have settled. */
  function AfterListing(cache: Cache, chain: Chain): WarmCache {
    var config := ConfigThrough(cache, chain);
    if config.None? then cache
    else
      var ps := ProposalsThrough(cache, chain);
      var read := AfterProposals(cache.(config := config), ps);
      if |ps| < LastNonce(config.value) then read
      else read.(statuses := AfterConversions(cache.statuses, chain, ps))
  }

  function Listing(cache: Cache, chain: Chain): Option<seq<Listed>> {
    var config := ConfigThrough(cache, chain);
    if config.None? then None
    else
      var ps := ProposalsThrough(cache, chain);
      if |ps| < LastNonce(config.value) then None else Entries(cache.statuses, chain, ps)
  }

  /** Reading the list adds to the cache and changes nothing that is there. */
  lemma {:induction false} ConversionsKeepEntries(statuses: map<nat, Status>, chain: Chain,
                                                  ps: seq<ProposalInfo>, n: nat)
    ensures var after := AfterConversions(statuses, chain, ps);
      && (n in statuses ==> n in after && after[n] == statuses[n])
      && (n in after && n !in statuses ==>
            exists i :: 0 <= i < |ps| && ps[i].nonce == n && StatusRead(ps[i], chain.epochs) == Some(after[n]))
  {
    if ps != [] {
      var most, last := ps[..|ps| - 1], ps[|ps| - 1];
      ConversionsKeepEntries(statuses, chain, most, n);
      var before, after := AfterConversions(statuses, chain, most), AfterConversions(statuses, chain, ps);
      if n in after && n !in statuses {
        if n in before {
          var i :| 0 <= i < |most| && most[i].nonce == n && StatusRead(most[i], chain.epochs) == Some(before[n]);
          assert ps[i] == most[i];
        } else {
          assert ps[|ps| - 1].nonce == n;
        }
      }
    }
  }

  /** A status is there afterwards if it was before, or if its proposal's conversion got that far. */
  lemma {:induction false} ConvertedExactly(statuses: map<nat, Status>, chain: Chain, ps: seq<ProposalInfo>, n: nat)
    ensures n in AfterConversions(statuses, chain, ps) <==>
            || n in statuses
            || exists i :: 0 <= i < |ps| && ps[i].nonce == n && n in chain.early &&
                           StatusRead(ps[i], chain.epochs).Some?
  {
    if ps != [] {
      var k := |ps| - 1;
      var most := ps[..k];
      ConvertedExactly(statuses, chain, most, n);
      ConvertedExactly(statuses, chain, most, ps[k].nonce);
      if i :| 0 <= i < |most| && most[i].nonce == n && n in chain.early && StatusRead(most[i], chain.epochs).Some? {
        assert ps[i] == most[i];
      }
      if i :| 0 <= i < |ps| && ps[i].nonce == n && n in chain.early && StatusRead(ps[i], chain.epochs).Some? {
        assert i < k ==> most[i] == ps[i];
      }
    }
  }

  lemma {:induction false} NothingToConvert(statuses: map<nat, Status>, chain: Chain, ps: seq<ProposalInfo>)
    requires forall i | 0 <= i < |ps| :: ps[i].nonce in statuses
    ensures AfterConversions(statuses, chain, ps) == statuses
  {
    if ps != [] {
      NothingToConvert(statuses, chain, ps[..|ps| - 1]);
    }
  }

  /** Everything cached is what the chain answers. */
  predicate Faithful(cache: Cache, chain: Chain) {
    && (cache.config.Some? ==> cache.config == chain.config)
    && (forall n | n in cache.proposals :: n in chain.proposals && cache.proposals[n] == chain.proposals[n])
    && (forall n | n in cache.statuses && n in chain.proposals ::
          StatusRead(chain.proposals[n], chain.epochs) == Some(cache.statuses[n]))
  }

  /** Through any cache that is faithful, cold, partly or fully filled, a reader gets the list of a complete pass. */
  lemma ListingMirrorsChain(cache: Cache, chain: Chain)
    requires Faithful(cache, chain)
    ensures Listing(cache, chain) == if Complete(chain) then ReadingOf(chain).list else None
    ensures Complete(chain) ==>
              var r := ReadingOf(chain);
              Listing(cache, chain).Some? && IsListOf(Listing(cache, chain).value, chain, r.proposals, r.statuses)
  {
    if Complete(chain) {
      ListOfIs(chain, ReadingOf(chain).proposals, ReadingOf(chain).statuses);
    }
    if chain.config.Some? {
      var ps := Fetched(chain.proposals, LastNonce(chain.config.value));
      FaithfulListing(cache, chain);
      FaithfulStatuses(cache, chain, ps);
      EntriesRead(cache.statuses, chain, ps);
    }
  }

  lemma FaithfulListing(cache: Cache, chain: Chain)
    requires Faithful(cache, chain) && chain.config.Some?
    ensures var last := LastNonce(chain.config.value);
      var ps := Fetched(chain.proposals, last);
      Listing(cache, chain) == if |ps| < last then None else Entries(cache.statuses, chain, ps)
  {
    FaithfulProposals(cache, chain);
  }

  lemma EntriesRead(known: map<nat, Status>, chain: Chain, ps: seq<ProposalInfo>)
    requires forall i | 0 <= i < |ps| :: StatusThrough(known, chain, ps[i]) == StatusRead(ps[i], chain.epochs)
    ensures var statuses := StatusesRead(ps, chain.epochs);
      Entries(known, chain, ps) ==
      if |statuses| == |ps| && Listable(chain, ps) then Some(ListOf(chain, ps, statuses)) else None
  {
    var statuses := StatusesRead(ps, chain.epochs);
    if |statuses| < |ps| {
      EntriesFail(known, chain, ps, |statuses|);
    } else {
      EntriesAreList(known, chain, ps, statuses);
    }
  }

  lemma FaithfulProposals(cache: Cache, chain: Chain)
    requires Faithful(cache, chain)
    ensures chain.proposals + cache.proposals == chain.proposals
  {
  }

  lemma FaithfulStatuses(cache: Cache, chain: Chain, ps: seq<ProposalInfo>)
    requires Faithful(cache, chain) && MatchesChain(chain.proposals, ps)
    ensures forall i | 0 <= i < |ps| :: StatusThrough(cache.statuses, chain, ps[i]) == StatusRead(ps[i], chain.epochs)
  {
    forall i | 0 <= i < |ps|
      ensures StatusThrough(cache.statuses, chain, ps[i]) == StatusRead(ps[i], chain.epochs)
    {
      var n: nat := i + 1;
      assert n in chain.proposals && chain.proposals[n] == ps[n - 1];
    }
  }

  // ----- The service -----

  class GovernanceCacheWarmerService {
    const scAddress: string
    var cache: Cache
    var published: seq<seq<GovernanceKey>>

    constructor (scAddress: string, cache: Cache)
      ensures this.scAddress == scAddress && this.cache == cache && published == []
    {
      this.scAddress, this.cache, published := scAddress, cache, [];
    }

    method DeleteCacheKeys(keys: seq<GovernanceKey>)
      modifies this`published
      ensures published == old(published) + [keys]
    {
      published := published + [keys];
    }

    /** The cached proposal, else the chain's, which is then cached. */
    method GetProposalCached(nonce: nat, chain: Chain) returns (p: Option<ProposalInfo>)
      modifies this`cache
      ensures nonce in old(cache.proposals) ==> p == Some(old(cache).proposals[nonce]) && cache == old(cache)
      ensures nonce !in old(cache.proposals) ==>
        && (p.Some? <==> nonce in chain.proposals)
        && (p.Some? ==> p.value == chain.proposals[nonce]
                        && cache == old(cache).(proposals := old(cache).proposals[nonce := p.value]))
        && (p.None? ==> cache == old(cache))
    {
      if nonce in cache.proposals {
        return Some(cache.proposals[nonce]);
      }
      if nonce !in chain.proposals {
        return None;
      }
      cache := cache.(proposals := cache.proposals[nonce := chain.proposals[nonce]]);
      return Some(chain.proposals[nonce]);
    }

    method SetProposal(proposal: ProposalInfo) returns (key: GovernanceKey)
      modifies this`cache
      ensures cache == old(cache).(proposals := old(cache).proposals[proposal.nonce := proposal])
      ensures key == GetProposal(proposal.nonce)
    {
      cache := cache.(proposals := cache.proposals[proposal.nonce := proposal]);
      key := GetProposal(proposal.nonce);
    }

    method SetStatus(nonce: nat, status: Status) returns (key: GovernanceKey)
      modifies this`cache
      ensures cache == old(cache).(statuses := old(cache).statuses[nonce := status])
      ensures key == ProposalStatus(scAddress, nonce)
    {
      cache := cache.(statuses := cache.statuses[nonce := status]);
      key := ProposalStatus(scAddress, nonce);
    }

    method SetVotes(nonce: nat, votes: ProposalVotes) returns (key: GovernanceKey)
      modifies this`cache
      ensures cache == old(cache).(votes := old(cache).votes[nonce := votes])
      ensures key == CacheKey.ProposalVotes(scAddress, nonce)
    {
      cache := cache.(votes := cache.votes[nonce := votes]);
      key := CacheKey.ProposalVotes(scAddress, nonce);
    }

    method InvalidateConfig(chain: Chain) returns (config: Option<Config>)
      modifies this`cache, this`published
      ensures config == chain.config
      ensures config.None? ==> cache == old(cache) && published == old(published)
      ensures config.Some? ==> cache == old(cache).(config := config) && published == old(published) + [[GetConfig]]
    {
      config := chain.config;
      if config.Some? {
        cache := cache.(config := config);
        DeleteCacheKeys([GetConfig]);
      }
    }

    method InvalidateProposalsRaw(config: Config, chain: Chain) returns (proposals: Option<seq<ProposalInfo>>)
      modifies this`cache, this`published
      ensures var last := LastNonce(config);
              var ps := Fetched(chain.proposals, last);
        && cache == AfterProposals(old(cache), ps)
        && proposals == (if |ps| == last then Some(ps) else None)
        && published == if |ps| == last then old(published) + [ProposalKeys(last)] else old(published)
    {
      var last := LastNonce(config);
      var list, keys := [], [];
      ghost var before := cache;
      for nonce := 1 to last + 1
        invariant |list| == nonce - 1
        invariant MatchesChain(chain.proposals, list)
        invariant keys == ProposalKeys(nonce - 1)
        invariant cache == AfterProposals(before, list)
        invariant published == old(published)
      {
        if nonce !in chain.proposals {
          FetchedIs(chain.proposals, last, list);
          return None;
        }
        var proposal := chain.proposals[nonce];
        ProposalKeysSnoc(nonce - 1);
        MatchesChainSnoc(chain.proposals, list);
        WriteSnoc(before.proposals, list, proposal);
        list := list + [proposal];
        var key := SetProposal(proposal);
        keys := keys + [key];
      }
      FetchedIs(chain.proposals, last, list);
      DeleteCacheKeys(keys);
      return Some(list);
    }

    method InvalidateProposalsStatuses(config: Config, proposals: seq<ProposalInfo>, chain: Chain) returns (ok: bool)
      requires |proposals| == LastNonce(config) && Numbered(proposals)
      modifies this`cache, this`published
      ensures var statuses := StatusesRead(proposals, chain.epochs);
        && ok == (|statuses| == |proposals|)
        && cache == AfterStatuses(old(cache), statuses)
        && published == if ok then old(published) + [StatusKeys(scAddress, |proposals|)] else old(published)
    {
      var last := LastNonce(config);
      var keys := [];
      ghost var before, written := cache, [];
      for nonce := 1 to last + 1
        invariant keys == StatusKeys(scAddress, nonce - 1)
        invariant |written| == nonce - 1
        invariant forall i | 0 <= i < |written| :: StatusRead(proposals[i], chain.epochs) == Some(written[i])
        invariant cache == AfterStatuses(before, written)
        invariant published == old(published)
      {
        var proposal := proposals[nonce - 1];
        var status := StatusRead(proposal, chain.epochs);
        if status.None? {
          StatusesReadAre(proposals, chain.epochs, written);
          return false;
        }
        WriteSnoc(before.statuses, written, status.value);
        StatusKeysSnoc(scAddress, nonce - 1);
        written := written + [status.value];
        var key := SetStatus(proposal.nonce, status.value);
        keys := keys + [key];
      }
      StatusesReadAre(proposals, chain.epochs, written);
      DeleteCacheKeys(keys);
      return true;
    }

    /** The tally of a proposal, read through the cache. */
    method ProposalVotesRaw(nonce: nat, chain: Chain) returns (votes: Option<ProposalVotes>)
      modifies this`cache
      ensures nonce in old(cache.proposals) ==>
                votes == Some(TallyOf(CountsOf(old(cache).proposals[nonce]))) && cache == old(cache)
      ensures nonce !in old(cache.proposals) ==> (votes.Some? <==> nonce in chain.proposals)
      ensures nonce !in old(cache.proposals) && votes.Some? ==>
                && votes.value == TallyOf(CountsOf(chain.proposals[nonce]))
                && cache == old(cache).(proposals := old(cache).proposals[nonce := chain.proposals[nonce]])
      ensures votes.None? ==> cache == old(cache)
    {
      var proposal := GetProposalCached(nonce, chain);
      votes := if proposal.None? then None else Some(TallyOf(CountsOf(proposal.value)));
    }

    /** The votes are read off the cached proposals, which the second stage has just refreshed. */
    method InvalidateProposalsVotes(config: Config, proposals: seq<ProposalInfo>, chain: Chain)
      requires |proposals| == LastNonce(config) && Numbered(proposals)
      requires Holds(cache.proposals, proposals)
      modifies this`cache, this`published
      ensures cache == AfterVotes(old(cache), proposals)
      ensures published == old(published) + [VotesKeys(scAddress, |proposals|)]
    {
      var last := LastNonce(config);
      var keys := [];
      ghost var before, written := cache, [];
      for nonce := 1 to last + 1
        invariant keys == VotesKeys(scAddress, nonce - 1)
        invariant written == VotesOf(proposals[..nonce - 1])
        invariant cache == before.(votes := Write(before.votes, written))
        invariant published == old(published)
      {
        assert nonce in cache.proposals && cache.proposals[nonce] == proposals[nonce - 1];
        var votes := ProposalVotesRaw(nonce, chain);
        WriteSnoc(before.votes, written, votes.value);
        VotesOfSnoc(proposals, nonce - 1);
        VotesKeysSnoc(scAddress, nonce - 1);
        written := written + [votes.value];
        var key := SetVotes(proposals[nonce - 1].nonce, votes.value);
        keys := keys + [key];
      }
      assert proposals[..last] == proposals;
      DeleteCacheKeys(keys);
    }

    /** The list reads configuration, proposals and statuses through the cache, and the rest from the chain. */
    method ProposalsRaw(chain: Chain) returns (list: Option<seq<Listed>>)
      modifies this`cache
      ensures cache == AfterListing(old(cache), chain) && list == Listing(old(cache), chain)
    {
      if cache.config.None? {
        if chain.config.None? {
          return None;
        }
        cache := cache.(config := chain.config);
      }
      var proposals := ReadProposals(LastNonce(cache.config.value), chain);
      if proposals.None? {
        return None;
      }
      list := ConvertAll(chain, proposals.value);
    }

    /** The proposals through the cache, up to the first that cannot be read. */
    method ReadProposals(last: nat, chain: Chain) returns (r: Option<seq<ProposalInfo>>)
      modifies this`cache
      ensures var ps := Fetched(chain.proposals + old(cache).proposals, last);
        && cache == AfterProposals(old(cache), ps)
        && r == (if |ps| == last then Some(ps) else None)
        && Numbered(ps)
    {
      ghost var before, source := cache, chain.proposals + cache.proposals;
      var proposals := [];
      for nonce := 1 to last + 1
        invariant |proposals| == nonce - 1 && MatchesChain(source, proposals)
        invariant cache == AfterProposals(before, proposals)
      {
        WriteAt(before.proposals, proposals);
        if nonce in source {
          WriteNext(before.proposals, proposals, source[nonce]);
          MatchesChainSnoc(source, proposals);
        }
        var proposal := GetProposalCached(nonce, chain);
        if proposal.None? {
          FetchedIs(source, last, proposals);
          MatchingIsNumbered(source, proposals);
          return None;
        }
        proposals := proposals + [proposal.value];
      }
      FetchedIs(source, last, proposals);
      MatchingIsNumbered(source, proposals);
      return Some(proposals);
    }

    /** The conversions of all proposals; one that fails lets the others go on and the list fail. */
    method ConvertAll(chain: Chain, proposals: seq<ProposalInfo>) returns (list: Option<seq<Listed>>)
      requires Numbered(proposals)
      modifies this`cache
      ensures cache == old(cache).(statuses := AfterConversions(old(cache).statuses, chain, proposals))
      ensures list == Entries(old(cache).statuses, chain, proposals)
    {
      list := Some([]);
      ghost var before := cache.statuses;
      for i := 0 to |proposals|
        invariant cache == old(cache).(statuses := AfterConversions(before, chain, proposals[..i]))
        invariant list == Entries(before, chain, proposals[..i])
      {
        assert proposals[..i + 1][..i] == proposals[..i];
        StatusUnasked(before, chain, proposals, i);
        var p := proposals[i];
        var status := None;
        if p.nonce in chain.early {
          status := StatusThrough(cache.statuses, chain, p);
          if status.Some? {
            cache := cache.(statuses := cache.statuses[p.nonce := status.value]);
          }
        }
        var listed := Entry(chain, p, status);
        list := if list.Some? && listed.Some? then Some(list.value + [listed.value]) else None;
      }
      assert proposals[..|proposals|] == proposals;
    }

    method InvalidateAllProposals(chain: Chain) returns (ok: bool)
      modifies this`cache, this`published
      ensures ok == Listing(old(cache), chain).Some?
      ensures cache == if ok then AfterListing(old(cache), chain).(list := Listing(old(cache), chain))
                       else AfterListing(old(cache), chain)
      ensures published == if ok then old(published) + [[Proposals(scAddress)]] else old(published)
    {
      var all := ProposalsRaw(chain);
      if all.None? {
        return false;
      }
      cache := cache.(list := all);
      DeleteCacheKeys([Proposals(scAddress)]);
      return true;
    }

    method WarmOnChainGovernance(chain: Chain)
      modifies this`cache, this`published
      ensures cache == AfterPass(old(cache), chain)
      ensures published == old(published) + PublishedBy(scAddress, chain)
    {
      var config := InvalidateConfig(chain);
      if config.None? {
        return;
      }
      var proposals := InvalidateProposalsRaw(config.value, chain);
      if proposals.None? {
        return;
      }
      WriteAt(old(cache).proposals, proposals.value);
      WarmFromStatuses(config.value, proposals.value, chain);
      ghost var r := ReadingOf(chain);
      AppendTwoAnd(old(published), [GetConfig], ProposalKeys(r.last), PublishedLater(scAddress, r));
    }

    /** The stages from the statuses on. */
    method WarmFromStatuses(config: Config, proposals: seq<ProposalInfo>, chain: Chain)
      requires chain.config == Some(config) == cache.config
      requires proposals == ReadingOf(chain).proposals && |proposals| == LastNonce(config)
      requires Holds(cache.proposals, proposals)
      modifies this`cache, this`published
      ensures cache == AfterDeciding(AfterStatuses(old(cache), ReadingOf(chain).statuses), ReadingOf(chain))
      ensures published == old(published) + PublishedLater(scAddress, ReadingOf(chain))
    {
      ghost var r := ReadingOf(chain);
      MatchingIsNumbered(chain.proposals, proposals);
      var ok := InvalidateProposalsStatuses(config, proposals, chain);
      WriteAt(old(cache).statuses, r.statuses);
      if ok {
        WarmFromVotes(config, proposals, chain, r.statuses);
        AppendAnd(old(published), StatusKeys(scAddress, r.last), PublishedLast(scAddress, r.last, r.list.Some?));
      }
    }

    /** The votes and the list. */
    method WarmFromVotes(config: Config, proposals: seq<ProposalInfo>, chain: Chain, ghost statuses: seq<Status>)
      requires cache.config == Some(config) && |proposals| == |statuses| == LastNonce(config) && Numbered(proposals)
      requires Holds(cache.proposals, proposals) && Holds(cache.statuses, statuses)
      modifies this`cache, this`published
      ensures cache == if Listable(chain, proposals)
                       then AfterVotes(old(cache), proposals).(list := Some(ListOf(chain, proposals, statuses)))
                       else AfterVotes(old(cache), proposals)
      ensures published == old(published) + PublishedLast(scAddress, |proposals|, Listable(chain, proposals))
    {
      AppendAnd(published, VotesKeys(scAddress, |proposals|), [[Proposals(scAddress)]]);
      InvalidateProposalsVotes(config, proposals, chain);
      ListingWarm(cache, chain, proposals, statuses);
      var ok := InvalidateAllProposals(chain);
    }
  }

  /** On a cache warmed with these proposals and statuses, reading the list changes nothing and needs only the rest. */
  lemma ListingWarm(cache: Cache, chain: Chain, ps: seq<ProposalInfo>, statuses: seq<Status>)
    requires cache.config.Some? && |ps| == |statuses| == LastNonce(cache.config.value)
    requires Numbered(ps) && Holds(cache.proposals, ps) && Holds(cache.statuses, statuses)
    ensures AfterListing(cache, chain) == cache
    ensures Listing(cache, chain) == if Listable(chain, ps) then Some(ListOf(chain, ps, statuses)) else None
  {
    FetchedIs(chain.proposals + cache.proposals, |ps|, ps);
    WriteHeld(cache.proposals, ps);
    forall i | 0 <= i < |ps|
      ensures ps[i].nonce in cache.statuses && cache.statuses[ps[i].nonce] == statuses[i]
    {
      var n: nat := i + 1;
      assert n in cache.statuses && cache.statuses[n] == statuses[n - 1];
    }
    NothingToConvert(cache.statuses, chain, ps);
    EntriesAreList(cache.statuses, chain, ps, statuses);
  }

  /** And the list it gives holds the proposals with these statuses. */
  lemma ListingWarmIs(cache: Cache, chain: Chain, ps: seq<ProposalInfo>, statuses: seq<Status>)
    requires cache.config.Some? && |ps| == |statuses| == LastNonce(cache.config.value)
    requires Numbered(ps) && Holds(cache.proposals, ps) && Holds(cache.statuses, statuses)
    requires forall i | 0 <= i < |ps| :: ps[i].nonce in chain.early && ps[i].nonce in chain.late
    ensures Listing(cache, chain).Some? && IsListOf(Listing(cache, chain).value, chain, ps, statuses)
  {
    ListingWarm(cache, chain, ps, statuses);
    ListOfIs(chain, ps, statuses);
  }

  lemma WriteHeld<V>(entries: map<nat, V>, values: seq<V>)
    requires Holds(entries, values)
    ensures Write(entries, values) == entries
  {
    WriteAt(entries, values);
  }

  lemma WriteNext<V>(before: map<nat, V>, values: seq<V>, v: V)
    ensures var n := |values| + 1;
      && SameEntry(before, Write(before, values), n)
      && Write(before, values + [v]) == Write(before, values)[n := v]
      && (n in before && before[n] == v ==> Write(before, values + [v]) == Write(before, values))
  {
    WriteAt(before, values);
    WriteSnoc(before, values, v);
  }

  lemma StatusUnasked(statuses: map<nat, Status>, chain: Chain, ps: seq<ProposalInfo>, i: nat)
    requires Numbered(ps) && i < |ps|
    ensures StatusThrough(AfterConversions(statuses, chain, ps[..i]), chain, ps[i]) ==
            StatusThrough(statuses, chain, ps[i])
  {
    ConversionsKeepEntries(statuses, chain, ps[..i], ps[i].nonce);
  }

  lemma {:induction false} FetchedIs(source: Proposals, n: nat, list: seq<ProposalInfo>)
    requires |list| <= n && MatchesChain(source, list)
    requires |list| < n ==> |list| + 1 !in source
    ensures Fetched(source, n) == list
  {
    var ps := Fetched(source, n);
    var j: nat, k: nat := |ps| + 1, |list| + 1;
    assert j <= |list| ==> j in source;
    assert k <= |ps| ==> k in source;
    forall i | 0 <= i < |ps| && i < |list|
      ensures ps[i] == list[i]
    {
      var m: nat := i + 1;
      assert m in source;
    }
  }

  lemma {:induction false} StatusesReadAre(ps: seq<ProposalInfo>, epochs: map<nat, nat>, r: seq<Status>)
    requires |r| <= |ps| && forall i | 0 <= i < |r| :: StatusRead(ps[i], epochs) == Some(r[i])
    requires |r| < |ps| ==> StatusRead(ps[|r|], epochs).None?
    ensures StatusesRead(ps, epochs) == r
  {
    if ps != [] {
      var n := |ps| - 1;
      StatusesReadAre(ps[..n], epochs, if |r| <= n then r else r[..n]);
    }
  }
}
