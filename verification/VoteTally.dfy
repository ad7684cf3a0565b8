/**
 * Tallies of a proposal's votes: the one recomputed from the contract's counts and the one
 * kept up to date vote by vote, with their two-decimal percentages.
 */
module VoteTally {
  import opened Rounding

  datatype VoteClass = Up | Down | DownVeto | Abstain

  /** A total is missing from the default tally, and adding to a missing number gives no number. */
  datatype Total = Value(n: nat) | Missing

  datatype Percentage = Hundredths(h: nat) | PlainZero | NotANumber | Infinite | Absent

  datatype ProposalVotes = ProposalVotes(
    upVotes: nat, downVotes: nat, downVetoVotes: nat, abstainVotes: nat,
    totalVotes: Total,
    upPercentage: Percentage, downPercentage: Percentage,
    downVetoPercentage: Percentage, abstainPercentage: Percentage,
    quorum: nat)

  /** What the contract stores for a proposal. */
  datatype VoteCounts = VoteCounts(up: nat, down: nat, downVeto: nat, abstain: nat, quorum: nat) {
    function Total(): nat {
      up + down + abstain + downVeto
    }
  }

  datatype Vote = Vote(voteClass: VoteClass, nrVotes: nat, quorumUsed: nat)

  // ----- Percentages -----

  /** 10^18 units of 10^-20 make a hundredth. */
  const HUNDREDTH: nat := 1_000_000_000_000_000_000

  /** Divided to 20 places, times 100, to 2 places. */
  function PercentHundredths(v: nat, total: nat): nat
    requires total > 0
  {
    RoundHalfUp(100 * RoundHalfUp(v * SCALE, total), HUNDREDTH)
  }

  function Percent(v: nat, total: Total): Percentage {
    match total
    case Missing => NotANumber
    case Value(t) => if t > 0 then Hundredths(PercentHundredths(v, t)) else if v == 0 then NotANumber else Infinite
  }

  /** 10^16, the ratio of 2 decimals of a percentage to 20 decimals of a quotient. */
  const GUARD: nat := 10_000_000_000_000_000

  /** A percentage is off by at most half a hundredth, plus half a unit of the 20th place of the quotient. */
  lemma PercentWithinHalf(v: nat, t: nat)
    requires t > 0
    ensures var p := PercentHundredths(v, t);
      0 - t * (GUARD + 1) <= GUARD * (2 * (p * t) - 20_000 * v) <= t * (GUARD + 1)
  {
    var q := RoundHalfUp(v * SCALE, t);
    var p := PercentHundredths(v, t);
    Multiples(q, t);
    assert 0 - t <= 2 * (q * t) - 2 * (v * SCALE) <= t;
    assert 0 - GUARD <= 2 * GUARD * p - 2 * q <= GUARD;
    ScaledError(2 * GUARD * p - 2 * q, GUARD, t);
    assert (2 * GUARD * p - 2 * q) * t == 2 * GUARD * (p * t) - 2 * (q * t);
  }

  lemma ScaledError(x: int, e: int, t: nat)
    requires 0 - e <= x <= e
    ensures 0 - e * t <= x * t <= e * t
  {
  }

  /**
   * A percentage is never a full half of a hundredth below: such a half is on the grid of the
   * quotient and rounds up.
   */
  lemma PercentNotHalfBelow(v: nat, t: nat)
    requires t > 0
    ensures 20_000 * v < 2 * (PercentHundredths(v, t) * t) + t
  {
    var q, p := RoundHalfUp(v * SCALE, t), PercentHundredths(v, t);
    Multiples(q, t);
    assert q + 1 <= (2 * p + 1) * (GUARD / 2);
    TimesBound(v * SCALE, q, (2 * p + 1) * (GUARD / 2), t);
    HalfTimes(p, t);
  }

  lemma TimesBound(scaled: nat, q: nat, b: nat, t: nat)
    requires 2 * scaled < 2 * (q * t) + t && q + 1 <= b
    ensures 2 * scaled + t < 2 * (b * t)
  {
    var k: nat := b - (q + 1);
    assert k * t >= 0;
    assert (q + 1 + k) * t == q * t + t + k * t;
  }

  lemma HalfTimes(p: nat, t: nat)
    ensures ((2 * p + 1) * (GUARD / 2)) * t == (GUARD / 2) * (2 * (p * t) + t)
  {
  }

  /** The four percentages of a positive total sum to 100, give 0.02 or take 0.01. */
  lemma PercentagesSum(c: VoteCounts)
    requires c.Total() > 0
    ensures var t := c.Total();
      9_999 <= PercentHundredths(c.up, t) + PercentHundredths(c.down, t) +
               PercentHundredths(c.downVeto, t) + PercentHundredths(c.abstain, t) <= 10_002
  {
    var t := c.Total();
    var p, q := PercentHundredths(c.up, t), PercentHundredths(c.down, t);
    var r, s := PercentHundredths(c.downVeto, t), PercentHundredths(c.abstain, t);
    PercentWithinHalf(c.up, t);
    PercentWithinHalf(c.down, t);
    PercentWithinHalf(c.downVeto, t);
    PercentWithinHalf(c.abstain, t);
    SumAtMost(p, q, r, s, t);
    PercentNotHalfBelow(c.up, t);
    PercentNotHalfBelow(c.down, t);
    PercentNotHalfBelow(c.downVeto, t);
    PercentNotHalfBelow(c.abstain, t);
    SumAtLeast(p, q, r, s, t);
  }

  lemma SumAtMost(p: nat, q: nat, r: nat, s: nat, t: nat)
    requires t > 0
    requires GUARD * (2 * (p * t + q * t + r * t + s * t) - 20_000 * t) <= 4 * t * (GUARD + 1)
    ensures p + q + r + s <= 10_002
  {
    var sum := p + q + r + s;
    assert p * t + q * t + r * t + s * t == sum * t;
    MultiplesOrdered(sum, 10_002, t);
  }

  lemma SumAtLeast(p: nat, q: nat, r: nat, s: nat, t: nat)
    requires t > 0
    requires 20_000 * t < 2 * (p * t + q * t + r * t + s * t) + 4 * t
    ensures 9_999 <= p + q + r + s
  {
    var sum := p + q + r + s;
    assert p * t + q * t + r * t + s * t == sum * t;
    MultiplesOrdered(sum, 9_999, t);
  }

  /**
   * Both bounds are reached: three votes of 20000 round up to 0.01% each and the rest to
   * 99.99%; three of three classes round down to 33.33% each.
   */
  lemma PercentagesSumIsTight()
    ensures 3 * PercentHundredths(1, 20_000) + PercentHundredths(19_997, 20_000) == 10_002
    ensures 3 * PercentHundredths(1, 3) + PercentHundredths(0, 3) == 9_999
  {
    assert PercentHundredths(1, 20_000) == 1 && PercentHundredths(19_997, 20_000) == 9_999;
    assert PercentHundredths(1, 3) == 3_333 && PercentHundredths(0, 3) == 0;
  }

  // ----- The recomputed tally -----

  function RawPercent(v: nat, total: nat): Percentage {
    if total > 0 then Hundredths(PercentHundredths(v, total)) else PlainZero
  }

  function TallyOf(c: VoteCounts): ProposalVotes {
    var total := c.Total();
    ProposalVotes(
      c.up, c.down, c.downVeto, c.abstain, Value(total),
      RawPercent(c.up, total), RawPercent(c.down, total), RawPercent(c.downVeto, total), RawPercent(c.abstain, total),
      c.quorum)
  }

  /**
   * A percentage in hundredths: off by half a hundredth at most, up to the last place kept, and
   * never a full half below.
   */
  predicate IsPercentage(p: Percentage, v: nat, t: nat) {
    && p.Hundredths?
    && GUARD * (2 * (p.h * t) - 20_000 * v) <= t * (GUARD + 1)
    && 20_000 * v < 2 * (p.h * t) + t
  }

  /** Every class has its own count and its own percentage; with no votes at all the percentages are plain zeros. */
  lemma TallyIs(c: VoteCounts)
    ensures var v, t := TallyOf(c), c.up + c.down + c.downVeto + c.abstain;
      && v.upVotes == c.up && v.downVotes == c.down && v.downVetoVotes == c.downVeto && v.abstainVotes == c.abstain
      && v.totalVotes == Value(t) && v.quorum == c.quorum
      && (t == 0 ==> v.upPercentage == v.downPercentage == v.downVetoPercentage == v.abstainPercentage == PlainZero)
      && (t > 0 ==>
            && IsPercentage(v.upPercentage, c.up, t) && IsPercentage(v.downPercentage, c.down, t)
            && IsPercentage(v.downVetoPercentage, c.downVeto, t) && IsPercentage(v.abstainPercentage, c.abstain, t))
  {
    if c.Total() > 0 {
      PercentageIs(c.up, c.Total());
      PercentageIs(c.down, c.Total());
      PercentageIs(c.downVeto, c.Total());
      PercentageIs(c.abstain, c.Total());
    }
  }

  lemma PercentageIs(v: nat, t: nat)
    requires t > 0
    ensures IsPercentage(RawPercent(v, t), v, t)
  {
    PercentWithinHalf(v, t);
    PercentNotHalfBelow(v, t);
  }

  /** The tally of a contract that answered nothing. */
  const DEFAULT_TALLY: ProposalVotes := ProposalVotes(0, 0, 0, 0, Missing, Absent, Absent, Absent, Absent, 0)

  function AddVote(c: VoteCounts, vote: Vote): VoteCounts {
    var d := c.(quorum := c.quorum + vote.quorumUsed);
    match vote.voteClass
    case Up => d.(up := c.up + vote.nrVotes)
    case Down => d.(down := c.down + vote.nrVotes)
    case DownVeto => d.(downVeto := c.downVeto + vote.nrVotes)
    case Abstain => d.(abstain := c.abstain + vote.nrVotes)
  }

  function AddVotes(c: VoteCounts, votes: seq<Vote>): VoteCounts
    decreases |votes|
  {
    if votes == [] then c else AddVote(AddVotes(c, votes[..|votes| - 1]), votes[|votes| - 1])
  }

  // ----- The incremental tally -----

  function PlusTotal(total: Total, n: nat): Total {
    match total
    case Missing => Missing
    case Value(t) => Value(t + n)
  }

  function CountVote(v: ProposalVotes, vote: Vote): ProposalVotes {
    match vote.voteClass
    case Up => v.(upVotes := v.upVotes + vote.nrVotes)
    case Down => v.(downVotes := v.downVotes + vote.nrVotes)
    case DownVeto => v.(downVetoVotes := v.downVetoVotes + vote.nrVotes)
    case Abstain => v.(abstainVotes := v.abstainVotes + vote.nrVotes)
  }

  function RefreshPercentages(v: ProposalVotes): ProposalVotes {
    v.(upPercentage := Percent(v.upVotes, v.totalVotes),
       downPercentage := Percent(v.downVotes, v.totalVotes),
       abstainPercentage := Percent(v.abstainVotes, v.totalVotes),
       downVetoPercentage := Percent(v.downVetoVotes, v.totalVotes))
  }

  /** The tally after one more vote. */
  function Increase(v: ProposalVotes, vote: Vote): ProposalVotes {
    RefreshPercentages(CountVote(
      v.(totalVotes := PlusTotal(v.totalVotes, vote.nrVotes), quorum := v.quorum + vote.quorumUsed), vote))
  }

  function IncreaseAll(v: ProposalVotes, votes: seq<Vote>): ProposalVotes
    decreases |votes|
  {
    if votes == [] then v else Increase(IncreaseAll(v, votes[..|votes| - 1]), votes[|votes| - 1])
  }

  /** The tally's counts are these, whatever its percentages. */
  predicate SameCounts(v: ProposalVotes, c: VoteCounts) {
    && v.upVotes == c.up && v.downVotes == c.down && v.downVetoVotes == c.downVeto && v.abstainVotes == c.abstain
    && v.totalVotes == Value(c.Total()) && v.quorum == c.quorum
  }

  lemma {:induction false} IncreaseAllCounts(v: ProposalVotes, c: VoteCounts, votes: seq<Vote>)
    requires SameCounts(v, c)
    ensures SameCounts(IncreaseAll(v, votes), AddVotes(c, votes))
    decreases |votes|
  {
    if votes != [] {
      var most, last := votes[..|votes| - 1], votes[|votes| - 1];
      IncreaseAllCounts(v, c, most);
      IncreaseCounts(IncreaseAll(v, most), AddVotes(c, most), last);
    }
  }

  lemma IncreaseCounts(v: ProposalVotes, c: VoteCounts, vote: Vote)
    requires SameCounts(v, c)
    ensures SameCounts(Increase(v, vote), AddVote(c, vote))
  {
  }

  /** After a vote the percentages are those of the counts. */
  lemma IncreaseRefreshes(v: ProposalVotes, vote: Vote)
    ensures Increase(v, vote) == RefreshPercentages(Increase(v, vote))
  {
  }

  lemma RefreshDependsOnCounts(v: ProposalVotes, w: ProposalVotes, c: VoteCounts)
    requires SameCounts(v, c) && SameCounts(w, c)
    ensures RefreshPercentages(v) == RefreshPercentages(w)
  {
  }

  /**
   * After any sequence of votes the incremental tally is the recomputed one, in every field,
   * exactly when there were no votes or their total is positive; at a total of 0 it holds
   * percentages that are no numbers where the recomputed tally has zeros.
   */
  lemma IncrementalIsRecomputed(c: VoteCounts, votes: seq<Vote>)
    ensures IncreaseAll(TallyOf(c), votes) == TallyOf(AddVotes(c, votes)) <==>
            votes == [] || AddVotes(c, votes).Total() > 0
  {
    IncreaseAllCounts(TallyOf(c), c, votes);
    if votes != [] {
      IncreaseRefreshes(IncreaseAll(TallyOf(c), votes[..|votes| - 1]), votes[|votes| - 1]);
      RefreshDependsOnCounts(IncreaseAll(TallyOf(c), votes), TallyOf(AddVotes(c, votes)), AddVotes(c, votes));
    }
  }

  lemma {:induction false} AddVotesInjective(c: VoteCounts, d: VoteCounts, votes: seq<Vote>)
    ensures AddVotes(c, votes) == AddVotes(d, votes) <==> c == d
    decreases |votes|
  {
    if votes != [] {
      AddVotesInjective(c, d, votes[..|votes| - 1]);
    }
  }

  lemma AddVotesOne(c: VoteCounts, vote: Vote)
    ensures AddVotes(c, [vote]) == AddVote(c, vote)
  {
    assert [vote][..0] == [];
  }

  lemma AddVoteCounts(c: VoteCounts, vote: Vote)
    ensures AddVote(c, vote).Total() == c.Total() + vote.nrVotes
    ensures AddVote(c, vote) == c <==> vote.nrVotes == 0 && vote.quorumUsed == 0
  {
  }

  /**
   * Started from any counts, the incremental tally is the one recomputed from others, in every
   * field, exactly when the counts are the same and no votes leave a total of 0.
   */
  lemma IncrementalIsRightExactly(started: VoteCounts, c: VoteCounts, votes: seq<Vote>)
    ensures IncreaseAll(TallyOf(started), votes) == TallyOf(AddVotes(c, votes)) <==>
            started == c && (votes == [] || AddVotes(c, votes).Total() > 0)
  {
    IncrementalIsRecomputed(c, votes);
    IncreaseAllCounts(TallyOf(started), started, votes);
    AddVotesInjective(started, c, votes);
    CountsOfTally(AddVotes(c, votes));
    if SameCounts(IncreaseAll(TallyOf(started), votes), AddVotes(c, votes)) {
      SameCountsDetermine(IncreaseAll(TallyOf(started), votes), AddVotes(started, votes), AddVotes(c, votes));
    }
  }

  lemma CountsOfTally(c: VoteCounts)
    ensures SameCounts(TallyOf(c), c)
  {
  }

  lemma SameCountsDetermine(v: ProposalVotes, c: VoteCounts, d: VoteCounts)
    requires SameCounts(v, c) && SameCounts(v, d)
    ensures c == d
  {
  }

  function SumNrVotes(votes: seq<Vote>): nat {
    if votes == [] then 0 else SumNrVotes(votes[..|votes| - 1]) + votes[|votes| - 1].nrVotes
  }

  /** The votes of one class, and the quorum of all. */
  function SumOfClass(votes: seq<Vote>, voteClass: VoteClass): nat {
    if votes == [] then 0
    else
      var last := votes[|votes| - 1];
      SumOfClass(votes[..|votes| - 1], voteClass) + if last.voteClass == voteClass then last.nrVotes else 0
  }

  function SumQuorum(votes: seq<Vote>): nat {
    if votes == [] then 0 else SumQuorum(votes[..|votes| - 1]) + votes[|votes| - 1].quorumUsed
  }

  /** Each class grows by the votes of that class, and the quorum by all quorum used. */
  lemma {:induction false} ClassesCollect(v: ProposalVotes, votes: seq<Vote>)
    ensures var w := IncreaseAll(v, votes);
      && w.upVotes == v.upVotes + SumOfClass(votes, Up)
      && w.downVotes == v.downVotes + SumOfClass(votes, Down)
      && w.downVetoVotes == v.downVetoVotes + SumOfClass(votes, DownVeto)
      && w.abstainVotes == v.abstainVotes + SumOfClass(votes, Abstain)
      && w.quorum == v.quorum + SumQuorum(votes)
      && (v.totalVotes.Value? ==> w.totalVotes == Value(v.totalVotes.n + SumNrVotes(votes)))
    decreases |votes|
  {
    if votes != [] {
      ClassesCollect(v, votes[..|votes| - 1]);
    }
  }

  /** So do the counts of the contract. */
  lemma {:induction false} CountsCollect(c: VoteCounts, votes: seq<Vote>)
    ensures AddVotes(c, votes) ==
            VoteCounts(c.up + SumOfClass(votes, Up), c.down + SumOfClass(votes, Down),
                       c.downVeto + SumOfClass(votes, DownVeto), c.abstain + SumOfClass(votes, Abstain),
                       c.quorum + SumQuorum(votes))
    decreases |votes|
  {
    if votes != [] {
      CountsCollect(c, votes[..|votes| - 1]);
    }
  }

  /** The percentages after a vote are those of the counts it leaves; without a positive total they are no numbers. */
  lemma PercentagesAfterVote(v: ProposalVotes, vote: Vote)
    ensures var w := Increase(v, vote);
      && (w.totalVotes.Value? && w.totalVotes.n > 0 ==>
            && IsPercentage(w.upPercentage, w.upVotes, w.totalVotes.n)
            && IsPercentage(w.downPercentage, w.downVotes, w.totalVotes.n)
            && IsPercentage(w.downVetoPercentage, w.downVetoVotes, w.totalVotes.n)
            && IsPercentage(w.abstainPercentage, w.abstainVotes, w.totalVotes.n))
      && (w.totalVotes == Value(0) ==>
            && (w.upVotes == 0 ==> w.upPercentage == NotANumber)
            && (w.downVotes == 0 ==> w.downPercentage == NotANumber)
            && (w.downVetoVotes == 0 ==> w.downVetoPercentage == NotANumber)
            && (w.abstainVotes == 0 ==> w.abstainPercentage == NotANumber))
  {
    var w := Increase(v, vote);
    if w.totalVotes.Value? && w.totalVotes.n > 0 {
      PercentageIs(w.upVotes, w.totalVotes.n);
      PercentageIs(w.downVotes, w.totalVotes.n);
      PercentageIs(w.downVetoVotes, w.totalVotes.n);
      PercentageIs(w.abstainVotes, w.totalVotes.n);
    }
  }

  /** The total stays the sum of the four classes and grows by the votes cast. */
  lemma {:induction false} TotalIsConserved(c: VoteCounts, votes: seq<Vote>)
    ensures var v := IncreaseAll(TallyOf(c), votes);
      && v.totalVotes == Value(v.upVotes + v.downVotes + v.downVetoVotes + v.abstainVotes)
      && v.totalVotes == Value(c.Total() + SumNrVotes(votes))
  {
    IncreaseAllCounts(TallyOf(c), c, votes);
    AddVotesTotal(c, votes);
  }

  lemma {:induction false} AddVotesTotal(c: VoteCounts, votes: seq<Vote>)
    ensures AddVotes(c, votes).Total() == c.Total() + SumNrVotes(votes)
    decreases |votes|
  {
    if votes != [] {
      AddVotesTotal(c, votes[..|votes| - 1]);
    }
  }

  /** A tally that starts from the default never gets a total, nor a percentage, however many votes follow. */
  lemma {:induction false} DefaultNeverRecovers(v: ProposalVotes, votes: seq<Vote>)
    requires v.totalVotes == Missing && votes != []
    ensures var w := IncreaseAll(v, votes);
      && w.totalVotes == Missing
      && w.upPercentage == w.downPercentage == w.downVetoPercentage == w.abstainPercentage == NotANumber
    ensures forall c: VoteCounts :: IncreaseAll(v, votes) != TallyOf(c)
    decreases |votes|
  {
    if |votes| > 1 {
      DefaultNeverRecovers(v, votes[..|votes| - 1]);
    }
  }

  /** So the tally that a contract without an answer starts with is never the recomputed one of any counts. */
  lemma DefaultTallyNeverRecovers(votes: seq<Vote>)
    ensures IncreaseAll(DEFAULT_TALLY, votes).totalVotes == Missing
    ensures forall c: VoteCounts :: IncreaseAll(DEFAULT_TALLY, votes) != TallyOf(c)
  {
    if votes != [] {
      DefaultNeverRecovers(DEFAULT_TALLY, votes);
    }
  }
}
