/**
 * On-chain voting: a user's power comes from a direct stake and from delegation providers,
 * and a vote builds one transaction for each source that still has power to cast.
 */
module OnChainVote {
  import opened Wrappers
  import opened VoteHandler

  /** A power as text: a number, or what an unreadable answer turns into; it absorbs sums. */
  datatype Power = Amount(n: nat) | NotANumber

  /** What a provider answers; -1 stands for a snapshot that is not there. */
  datatype Answer = Answered(power: Power) | MinusOne

  datatype Provider = Provider(voteScAddress: string, stakeScAddress: string, isEnabled: bool)

  datatype UserVotingPower = UserVotingPower(scAddress: string, power: Power, isEnabled: bool, hasVoted: bool)

  datatype Transaction = DelegateVote(scAddress: string, vote: VoteType) | DirectVote(vote: VoteType)

  /** Direct power: a number, none for want of stake, or a failure that ends the call. */
  datatype DirectAnswer = Stake(n: nat) | NotEnoughStake | Failing(message: string)

  /** A provider read that rejects, and whether its message is that there is not enough stake to vote. */
  datatype Rejection = Rejection(message: string, notEnough: bool)

  datatype Failure = InvalidVoteType | Unavailable(message: string)

  function Plus(a: Power, b: Power): Power {
    if a.Amount? && b.Amount? then Amount(a.n + b.n) else NotANumber
  }

  /** The row of a provider; a disabled one is not asked and counts for nothing. */
  function Row(p: Provider, answer: Answer, votedAt: set<string>): UserVotingPower {
    var raw := if p.isEnabled then answer else Answered(Amount(0));
    UserVotingPower(
      p.voteScAddress,
      if raw.MinusOne? then Amount(0) else raw.power,
      !raw.MinusOne? && p.isEnabled,
      p.isEnabled && p.stakeScAddress in votedAt)
  }

  /**
   * What the user was found to have: each provider's answer, the first of the provider reads to
   * reject if any does, the direct stake, and the contracts voted at so far.
   */
  datatype Situation = Situation(
    providers: seq<Provider>,
    answers: seq<Answer>,
    rejection: Option<Rejection>,
    direct: DirectAnswer,
    votedAt: set<string>)
  {
    predicate Valid() {
      |answers| == |providers|
    }

    function Rows(): (rows: seq<UserVotingPower>)
      requires Valid()
      ensures |rows| == |providers|
      ensures forall i | 0 <= i < |rows| :: rows[i] == Row(providers[i], answers[i], votedAt)
    {
      seq(|providers|, i requires 0 <= i < |providers| => Row(providers[i], answers[i], votedAt))
    }

    function Direct(): Result<Power, Failure> {
      match direct
      case Stake(n) => Ok(Amount(n))
      case NotEnoughStake => Ok(Amount(0))
      case Failing(m) => Err(Unavailable(m))
    }
  }

  function SumPower(rows: seq<UserVotingPower>): Power {
    if rows == [] then Amount(0) else Plus(SumPower(rows[..|rows| - 1]), rows[|rows| - 1].power)
  }

  function TotalPower(s: Situation): Result<Power, Failure>
    requires s.Valid()
  {
    var direct := s.Direct();
    if direct.Err? then Err(direct.error)
    else if s.rejection.Some? then
      if s.rejection.value.notEnough then Ok(Amount(0)) else Err(Unavailable(s.rejection.value.message))
    else Ok(Plus(direct.value, SumPower(s.Rows())))
  }

  /** A direct stake adds its whole amount to the delegated power, none adds nothing, and a failing read fails. */
  lemma DirectCounts(s: Situation)
    requires s.Valid()
    ensures forall message :: s.direct == Failing(message) ==> TotalPower(s) == Err(Unavailable(message))
    ensures s.rejection.None? && s.direct == NotEnoughStake ==> TotalPower(s) == Ok(Plus(Amount(0), SumPower(s.Rows())))
    ensures s.rejection.None? && s.direct.Stake? ==> TotalPower(s) == Ok(Plus(Amount(s.direct.n), SumPower(s.Rows())))
  {
  }

  /**
   * The delegated power is the sum of what the providers answered, one that is disabled or has no
   * snapshot for nothing.
   */
  lemma {:induction false} DelegatedPowerIs(rows: seq<UserVotingPower>)
    ensures SumPower(rows) == NotANumber <==> exists i :: 0 <= i < |rows| && rows[i].power == NotANumber
    ensures SumPower(rows).Amount? ==> SumPower(rows).n == SumAmounts(rows)
  {
    if rows != [] {
      var n := |rows| - 1;
      var most := rows[..n];
      DelegatedPowerIs(most);
      if i :| 0 <= i < |most| && most[i].power == NotANumber {
        assert rows[i] == most[i];
      }
      if i :| 0 <= i < |rows| && rows[i].power == NotANumber {
        assert i < n ==> most[i] == rows[i];
      }
    }
  }

  function SumAmounts(rows: seq<UserVotingPower>): nat {
    if rows == [] then 0
    else
      var last := rows[|rows| - 1].power;
      SumAmounts(rows[..|rows| - 1]) + if last.Amount? then last.n else 0
  }

  /** The total as the service computes it, adding row by row. */
  method ComputeUserVotingPower(s: Situation) returns (total: Result<Power, Failure>)
    requires s.Valid()
    ensures total == TotalPower(s)
  {
    var direct := s.Direct();
    if direct.Err? {
      return Err(direct.error);
    }
    if s.rejection.Some? {
      if s.rejection.value.notEnough {
        return Ok(Amount(0));
      }
      return Err(Unavailable(s.rejection.value.message));
    }
    var rows := s.Rows();
    var delegated := Amount(0);
    for i := 0 to |rows|
      invariant delegated == SumPower(rows[..i])
    {
      assert rows[..i + 1][..i] == rows[..i];
      delegated := Plus(delegated, rows[i].power);
    }
    assert rows[..|rows|] == rows;
    return Ok(Plus(direct.value, delegated));
  }

  // ----- The transactions of a vote -----

  predicate Casts(row: UserVotingPower) {
    !row.hasVoted && row.power != Amount(0)
  }

  function DelegateVotes(rows: seq<UserVotingPower>, vote: VoteType): seq<Transaction> {
    if rows == [] then []
    else
      var last := rows[|rows| - 1];
      DelegateVotes(rows[..|rows| - 1], vote) + if Casts(last) then [DelegateVote(last.scAddress, vote)] else []
  }

  /** Transactions come in the order of the providers, one for each that casts. */
  lemma {:induction false} DelegateVotesInOrder(a: seq<UserVotingPower>, b: seq<UserVotingPower>, vote: VoteType)
    ensures DelegateVotes(a + b, vote) == DelegateVotes(a, vote) + DelegateVotes(b, vote)
    ensures |b| == 1 ==>
              DelegateVotes(b, vote) ==
              if !b[0].hasVoted && b[0].power != Amount(0) then [DelegateVote(b[0].scAddress, vote)] else []
    decreases |b|
  {
    if b == [] {
      assert a + b == a;
    } else {
      DelegateVotesInOrder(a, b[..|b| - 1], vote);
      assert (a + b)[..|a + b| - 1] == a + b[..|b| - 1];
    }
  }

  predicate CastsDirect(s: Situation, contract: string) {
    contract !in s.votedAt && s.Direct() != Ok(Amount(0))
  }

  function BuildVotes(s: Situation, contract: string, vote: VoteType): Result<seq<Transaction>, Failure>
    requires s.Valid()
  {
    if vote == NotVoted then Err(InvalidVoteType)
    else if s.rejection.Some? then Err(Unavailable(s.rejection.value.message))
    else if s.Direct().Err? then Err(s.Direct().error)
    else Ok(DelegateVotes(s.Rows(), vote) + if CastsDirect(s, contract) then [DirectVote(vote)] else [])
  }

  method CastVote(s: Situation, contract: string, vote: VoteType) returns (r: Result<seq<Transaction>, Failure>)
    requires s.Valid()
    ensures r == BuildVotes(s, contract, vote)
  {
    if vote == NotVoted {
      return Err(InvalidVoteType);
    }
    if s.rejection.Some? {
      return Err(Unavailable(s.rejection.value.message));
    }
    var rows := s.Rows();
    var txs: seq<Transaction> := [];
    for i := 0 to |rows|
      invariant txs == DelegateVotes(rows[..i], vote)
    {
      assert rows[..i + 1][..i] == rows[..i];
      if !rows[i].hasVoted && rows[i].power != Amount(0) {
        txs := txs + [DelegateVote(rows[i].scAddress, vote)];
      }
    }
    assert rows[..|rows|] == rows;
    var hasVoted := contract in s.votedAt;
    var direct := s.Direct();
    if direct.Err? {
      return Err(direct.error);
    }
    if !hasVoted && direct.value != Amount(0) {
      txs := txs + [DirectVote(vote)];
    }
    assert txs == DelegateVotes(rows, vote) + if CastsDirect(s, contract) then [DirectVote(vote)] else [];
    return Ok(txs);
  }

  // ----- Conservation of power -----

  function CastPart(row: UserVotingPower): Power {
    if Casts(row) then row.power else Amount(0)
  }

  function VotedPart(row: UserVotingPower): Power {
    if row.hasVoted then row.power else Amount(0)
  }

  /** The power behind the transactions of the delegation providers. */
  function SumCast(rows: seq<UserVotingPower>): Power {
    if rows == [] then Amount(0) else Plus(SumCast(rows[..|rows| - 1]), CastPart(rows[|rows| - 1]))
  }

  /** The delegated power already cast. */
  function SumVoted(rows: seq<UserVotingPower>): Power {
    if rows == [] then Amount(0) else Plus(SumVoted(rows[..|rows| - 1]), VotedPart(rows[|rows| - 1]))
  }

  /** The power already cast, by delegation and directly. */
  function PowerVoted(rows: seq<UserVotingPower>, direct: Power, votedDirect: bool): Power {
    Plus(SumVoted(rows), if votedDirect then direct else Amount(0))
  }

  lemma PlusSwap(a: Power, b: Power, c: Power, d: Power, sum: Power, part: Power)
    requires Plus(a, c) == sum && Plus(b, d) == part
    ensures Plus(Plus(a, b), Plus(c, d)) == Plus(sum, part)
  {
  }

  lemma PartsMakeRow(row: UserVotingPower)
    ensures Plus(CastPart(row), VotedPart(row)) == row.power
  {
  }

  lemma {:induction false} RowsConserve(rows: seq<UserVotingPower>)
    ensures Plus(SumCast(rows), SumVoted(rows)) == SumPower(rows)
  {
    if rows != [] {
      var most, last := rows[..|rows| - 1], rows[|rows| - 1];
      RowsConserve(most);
      PartsMakeRow(last);
      PlusSwap(SumCast(most), CastPart(last), SumVoted(most), VotedPart(last), SumPower(most), last.power);
    }
  }

  lemma PartsMakeWhole(cast: Power, voted: Power, sum: Power, direct: Power, votedDirect: bool)
    requires Plus(cast, voted) == sum
    ensures var castDirect := if !votedDirect && direct != Amount(0) then direct else Amount(0);
      Plus(Plus(cast, castDirect), Plus(voted, if votedDirect then direct else Amount(0))) == Plus(direct, sum)
  {
  }

  /**
   * A power can be told and yet no vote be built, exactly when a provider rejects for want of
   * stake: the power is then told as 0, whatever the direct stake.
   */
  lemma PowerToldVoteRefusedExactly(s: Situation, contract: string, vote: VoteType)
    requires s.Valid() && vote != NotVoted
    ensures BuildVotes(s, contract, vote).Ok? ==> TotalPower(s).Ok?
    ensures TotalPower(s).Ok? && BuildVotes(s, contract, vote).Err? <==>
            s.Direct().Ok? && s.rejection.Some? && s.rejection.value.notEnough
    ensures s.Direct().Ok? && s.rejection.Some? && s.rejection.value.notEnough ==> TotalPower(s) == Ok(Amount(0))
  {
  }

  /** Which failure a vote, and a question for the power, ends with. */
  lemma FailuresAre(s: Situation, contract: string, vote: VoteType)
    requires s.Valid()
    ensures vote == NotVoted ==> BuildVotes(s, contract, vote) == Err(InvalidVoteType)
    ensures vote != NotVoted && s.rejection.Some? ==>
              BuildVotes(s, contract, vote) == Err(Unavailable(s.rejection.value.message))
    ensures vote != NotVoted && s.rejection.None? && s.direct.Failing? ==>
              BuildVotes(s, contract, vote) == Err(Unavailable(s.direct.message))
    ensures s.direct.Failing? ==> TotalPower(s) == Err(Unavailable(s.direct.message))
    ensures !s.direct.Failing? && s.rejection.Some? && !s.rejection.value.notEnough ==>
              TotalPower(s) == Err(Unavailable(s.rejection.value.message))
  {
  }

  // ----- Which transactions are built -----

  /** No voting contract is configured twice. */
  predicate DistinctProviders(providers: seq<Provider>) {
    forall i, j | 0 <= i < j < |providers| :: providers[i].voteScAddress != providers[j].voteScAddress
  }

  predicate DistinctRows(rows: seq<UserVotingPower>) {
    forall i, j | 0 <= i < j < |rows| :: rows[i].scAddress != rows[j].scAddress
  }

  predicate DistinctTransactions(txs: seq<Transaction>) {
    forall i, j | 0 <= i < j < |txs| :: txs[i] != txs[j]
  }

  lemma {:induction false} DelegateVoteOf(rows: seq<UserVotingPower>, vote: VoteType, t: Transaction)
    ensures t in DelegateVotes(rows, vote) <==>
            && t.DelegateVote? && t.vote == vote
            && exists i :: 0 <= i < |rows| && Casts(rows[i]) && rows[i].scAddress == t.scAddress
  {
    if rows != [] {
      var most, last := rows[..|rows| - 1], rows[|rows| - 1];
      DelegateVoteOf(most, vote, t);
      if t in DelegateVotes(most, vote) {
        var i :| 0 <= i < |most| && Casts(most[i]) && most[i].scAddress == t.scAddress;
        assert rows[i] == most[i];
      } else if t in DelegateVotes(rows, vote) {
        assert rows[|rows| - 1] == last;
      }
      if t.DelegateVote? && t.vote == vote {
        if i :| 0 <= i < |rows| && Casts(rows[i]) && rows[i].scAddress == t.scAddress {
          assert i < |most| ==> most[i] == rows[i];
        }
      }
    }
  }

  lemma {:induction false} DelegateVotesDistinct(rows: seq<UserVotingPower>, vote: VoteType)
    requires DistinctRows(rows)
    ensures DistinctTransactions(DelegateVotes(rows, vote))
  {
    if rows != [] {
      var most, last := rows[..|rows| - 1], rows[|rows| - 1];
      DelegateVotesDistinct(most, vote);
      DelegateVoteOf(most, vote, DelegateVote(last.scAddress, vote));
    }
  }

  /**
   * Exactly the sources that have not voted and whose power is not zero get a transaction, and
   * no source gets two.
   */
  lemma OneTransactionPerSource(s: Situation, contract: string, vote: VoteType)
    requires s.Valid() && DistinctProviders(s.providers) && BuildVotes(s, contract, vote).Ok?
    ensures var txs := BuildVotes(s, contract, vote).value;
      && DistinctTransactions(txs)
      && (DirectVote(vote) in txs <==> CastsDirect(s, contract))
      && (forall i | 0 <= i < |s.providers| ::
            DelegateVote(s.providers[i].voteScAddress, vote) in txs <==> Casts(s.Rows()[i]))
  {
    var rows := s.Rows();
    RowsDistinct(s);
    DelegateVotesDistinct(rows, vote);
    DelegateVoteOf(rows, vote, DirectVote(vote));
    forall i | 0 <= i < |s.providers|
      ensures DelegateVote(s.providers[i].voteScAddress, vote) in DelegateVotes(rows, vote) <==> Casts(rows[i])
    {
      DelegateVoteOf(rows, vote, DelegateVote(rows[i].scAddress, vote));
    }
  }

  /** A direct transaction is built exactly if there is a stake and no direct vote yet. */
  lemma DirectVoteExactly(s: Situation, contract: string, vote: VoteType)
    requires s.Valid() && vote != NotVoted && s.rejection.None?
    ensures BuildVotes(s, contract, vote).Ok? <==> !s.direct.Failing?
    ensures forall message :: s.direct == Failing(message) ==>
              BuildVotes(s, contract, vote) == Err(Unavailable(message))
    ensures BuildVotes(s, contract, vote).Ok? ==>
              (DirectVote(vote) in BuildVotes(s, contract, vote).value <==>
               contract !in s.votedAt && s.direct.Stake? && s.direct.n > 0)
  {
    if BuildVotes(s, contract, vote).Ok? {
      DelegateVoteOf(s.Rows(), vote, DirectVote(vote));
    }
  }

  lemma RowsDistinct(s: Situation)
    requires s.Valid() && DistinctProviders(s.providers)
    ensures DistinctRows(s.Rows())
  {
    var rows := s.Rows();
    forall i, j | 0 <= i < j < |rows|
      ensures rows[i].scAddress != rows[j].scAddress
    {
      assert rows[i].scAddress == s.providers[i].voteScAddress && rows[j].scAddress == s.providers[j].voteScAddress;
    }
  }

  // ----- The power behind transactions -----

  /** The power of the source of an address, found among the user's rows. */
  function PowerAt(rows: seq<UserVotingPower>, address: string): Power {
    if rows == [] then Amount(0)
    else if rows[|rows| - 1].scAddress == address then rows[|rows| - 1].power
    else PowerAt(rows[..|rows| - 1], address)
  }

  /** What a list of transactions casts: each one the power of the source it names. */
  function PowerBehind(rows: seq<UserVotingPower>, direct: Power, txs: seq<Transaction>): Power {
    if txs == [] then Amount(0)
    else
      var last := txs[|txs| - 1];
      Plus(PowerBehind(rows, direct, txs[..|txs| - 1]),
           if last.DirectVote? then direct else PowerAt(rows, last.scAddress))
  }

  lemma PowerBehindSnoc(rows: seq<UserVotingPower>, direct: Power, txs: seq<Transaction>, t: Transaction)
    ensures PowerBehind(rows, direct, txs + [t]) ==
            Plus(PowerBehind(rows, direct, txs), if t.DirectVote? then direct else PowerAt(rows, t.scAddress))
  {
    assert (txs + [t])[..|txs|] == txs;
  }

  /** One more source does not change the power behind transactions that do not name it. */
  lemma {:induction false} PowerBehindOthers(rows: seq<UserVotingPower>, direct: Power, txs: seq<Transaction>)
    requires rows != [] && forall t | t in txs && t.DelegateVote? :: t.scAddress != rows[|rows| - 1].scAddress
    ensures PowerBehind(rows, direct, txs) == PowerBehind(rows[..|rows| - 1], direct, txs)
    decreases |txs|
  {
    if txs != [] {
      PowerBehindOthers(rows, direct, txs[..|txs| - 1]);
    }
  }

  lemma {:induction false} PowerBehindDelegateVotes(rows: seq<UserVotingPower>, direct: Power, vote: VoteType)
    requires DistinctRows(rows)
    ensures PowerBehind(rows, direct, DelegateVotes(rows, vote)) == SumCast(rows)
  {
    if rows != [] {
      var most, last := rows[..|rows| - 1], rows[|rows| - 1];
      PowerBehindDelegateVotes(most, direct, vote);
      forall t | t in DelegateVotes(most, vote)
        ensures t.DelegateVote? && t.scAddress != last.scAddress
      {
        DelegateVoteOf(most, vote, t);
        var i :| 0 <= i < |most| && Casts(most[i]) && most[i].scAddress == t.scAddress;
        assert rows[i] == most[i];
      }
      PowerBehindOthers(rows, direct, DelegateVotes(most, vote));
      PlusZero(SumCast(most));
      if Casts(last) {
        PowerBehindSnoc(rows, direct, DelegateVotes(most, vote), DelegateVote(last.scAddress, vote));
      } else {
        assert DelegateVotes(rows, vote) == DelegateVotes(most, vote);
      }
    }
  }

  lemma PlusZero(a: Power)
    ensures Plus(a, Amount(0)) == a
  {
  }

  lemma PowerBehindAll(rows: seq<UserVotingPower>, direct: Power, vote: VoteType,
                       txs: seq<Transaction>, castsDirect: bool)
    requires DistinctRows(rows)
    requires txs == if castsDirect then DelegateVotes(rows, vote) + [DirectVote(vote)] else DelegateVotes(rows, vote)
    ensures PowerBehind(rows, direct, txs) == if castsDirect then Plus(SumCast(rows), direct) else SumCast(rows)
  {
    PowerBehindDelegateVotes(rows, direct, vote);
    if castsDirect {
      PowerBehindSnoc(rows, direct, DelegateVotes(rows, vote), DirectVote(vote));
    }
  }

  /**
   * The power behind the transactions that a vote builds and the power already cast make up the
   * user's whole power, unreadable answers included.
   */
  lemma PowerIsConserved(s: Situation, contract: string, vote: VoteType)
    requires s.Valid() && DistinctProviders(s.providers) && BuildVotes(s, contract, vote).Ok?
    ensures var rows, direct := s.Rows(), Amount(if s.direct.Stake? then s.direct.n else 0);
      var cast := PowerBehind(rows, direct, BuildVotes(s, contract, vote).value);
      var voted := PowerVoted(rows, direct, contract in s.votedAt);
      Plus(cast, voted) == Plus(direct, SumPower(rows)) && TotalPower(s) == Ok(Plus(direct, SumPower(rows)))
  {
    RowsDistinct(s);
    DirectAdds(s, contract, vote);
    PowerAdds(s.Rows(), Amount(if s.direct.Stake? then s.direct.n else 0), vote, BuildVotes(s, contract, vote).value,
              contract in s.votedAt);
  }

  /** The direct stake adds to the total, and to the transactions if it is there and not yet cast. */
  lemma DirectAdds(s: Situation, contract: string, vote: VoteType)
    requires s.Valid() && BuildVotes(s, contract, vote).Ok?
    ensures var direct := Amount(if s.direct.Stake? then s.direct.n else 0);
      TotalPower(s) == Ok(Plus(direct, SumPower(s.Rows())))
    ensures var direct, delegated := Amount(if s.direct.Stake? then s.direct.n else 0), DelegateVotes(s.Rows(), vote);
      BuildVotes(s, contract, vote).value ==
      if contract !in s.votedAt && direct != Amount(0) then delegated + [DirectVote(vote)] else delegated
  {
    var delegated := DelegateVotes(s.Rows(), vote);
    assert delegated + [] == delegated;
  }

  lemma PowerAdds(rows: seq<UserVotingPower>, direct: Power, vote: VoteType, txs: seq<Transaction>, votedDirect: bool)
    requires DistinctRows(rows)
    requires txs == if !votedDirect && direct != Amount(0) then DelegateVotes(rows, vote) + [DirectVote(vote)]
                    else DelegateVotes(rows, vote)
    ensures Plus(PowerBehind(rows, direct, txs), PowerVoted(rows, direct, votedDirect)) == Plus(direct, SumPower(rows))
  {
    PowerBehindAll(rows, direct, vote, txs, !votedDirect && direct != Amount(0));
    PlusZero(SumCast(rows));
    RowsConserve(rows);
    PartsMakeWhole(SumCast(rows), SumVoted(rows), SumPower(rows), direct, votedDirect);
  }

  /**
   * The row of every provider, by what it was asked: a disabled provider has no power and no
   * vote, a missing snapshot counts as disabled, and any other row carries its own provider's answer.
   */
  lemma RowsAre(s: Situation, i: nat)
    requires s.Valid() && i < |s.providers|
    ensures var row, p, answer := s.Rows()[i], s.providers[i], s.answers[i];
      && row.scAddress == p.voteScAddress
      && (row.isEnabled <==> p.isEnabled && answer != MinusOne)
      && (row.power == Amount(0) <==> !row.isEnabled || answer == Answered(Amount(0)))
      && (row.isEnabled ==> answer == Answered(row.power))
      && (row.hasVoted <==> p.isEnabled && p.stakeScAddress in s.votedAt)
      && (Casts(row) <==> row.isEnabled && answer != Answered(Amount(0)) && p.stakeScAddress !in s.votedAt)
  {
  }

  /**
   * Every transaction has positive power behind it exactly when no source that has yet to vote
   * gives an unreadable answer.
   */
  lemma CastPowerIsPositive(s: Situation, i: nat)
    requires s.Valid() && i < |s.providers| && Casts(s.Rows()[i])
    ensures (exists n :: n > 0 && s.Rows()[i].power == Amount(n)) <==> s.answers[i] != Answered(NotANumber)
  {
    var power := s.Rows()[i].power;
    if power.Amount? {
      assert power.n > 0 && power == Amount(power.n);
    }
  }

  // ----- Voting again -----

  /** The contracts a user has voted at once all transactions of a vote went through. */
  function VotedAfter(s: Situation, contract: string): set<string>
    requires s.Valid()
  {
    s.votedAt +
    (set i | 0 <= i < |s.providers| && Casts(s.Rows()[i]) :: s.providers[i].stakeScAddress) +
    if CastsDirect(s, contract) then {contract} else {}
  }

  /** They are those voted at before and those that a transaction of the vote goes to, and no others. */
  lemma VotedAfterExactly(s: Situation, contract: string, vote: VoteType, at: string)
    requires s.Valid() && DistinctProviders(s.providers) && BuildVotes(s, contract, vote).Ok?
    ensures var txs := BuildVotes(s, contract, vote).value;
      at in VotedAfter(s, contract) <==>
      || at in s.votedAt
      || (at == contract && DirectVote(vote) in txs)
      || exists i :: 0 <= i < |s.providers| && s.providers[i].stakeScAddress == at &&
                     DelegateVote(s.providers[i].voteScAddress, vote) in txs
  {
    OneTransactionPerSource(s, contract, vote);
  }

  lemma {:induction false} NoCastsNoVotes(rows: seq<UserVotingPower>, vote: VoteType)
    requires forall i | 0 <= i < |rows| :: !Casts(rows[i])
    ensures DelegateVotes(rows, vote) == []
  {
    if rows != [] {
      NoCastsNoVotes(rows[..|rows| - 1], vote);
    }
  }

  /** With the same powers, a second vote after the first went through builds nothing, and casts no power. */
  lemma SecondVoteBuildsNothing(s: Situation, contract: string, vote: VoteType, again: VoteType)
    requires s.Valid() && BuildVotes(s, contract, vote).Ok? && again != NotVoted
    ensures BuildVotes(s.(votedAt := VotedAfter(s, contract)), contract, again) == Ok([])
  {
    var t := s.(votedAt := VotedAfter(s, contract));
    forall i | 0 <= i < |t.Rows()|
      ensures !Casts(t.Rows()[i])
    {
      var p := s.providers[i];
      assert s.Rows()[i] == Row(p, s.answers[i], s.votedAt);
      assert t.Rows()[i] == Row(p, s.answers[i], t.votedAt);
      if Casts(s.Rows()[i]) {
        assert p.stakeScAddress in t.votedAt;
        assert p.isEnabled;
      }
    }
    NoCastsNoVotes(t.Rows(), again);
    assert !CastsDirect(t, contract);
    assert DelegateVotes(t.Rows(), again) + [] == [];
  }
}
