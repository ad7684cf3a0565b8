/**
 * One user's list of votes on one contract over several nodes, each with its own copy. Every
 * step reads the own copy first. A vote event sets the list and has its key published, and is
 * taken as done when every node has dropped its copy; a reader sets the list and has nothing
 * published, so nodes go on with copies that lack entries others have filled.
 */
module VoteLists {
  import opened Wrappers
  import opened VoteHandler

  type Node = nat

  datatype Lists = Lists(shared: Option<seq<UserVote>>, own: map<Node, seq<UserVote>>)

  datatype Step =
    | Handle(node: Node, proposalId: nat, vote: VoteType)
    | Read(node: Node, proposalId: nat, indexed: VoteType)

  function Own(s: Lists, n: Node): Option<seq<UserVote>> {
    if n in s.own then Some(s.own[n]) else None
  }

  function Seen(s: Lists, n: Node): seq<UserVote> {
    ReadList(Own(s, n), s.shared)
  }

  function Apply(s: Lists, step: Step): Lists {
    match step
    case Handle(n, id, vote) => Lists(Some(RecordVote(Seen(s, n), id, vote)), map[])
    case Read(n, id, indexed) =>
      var list := FillVote(Seen(s, n), id, indexed);
      Lists(if Position(Seen(s, n), id).Some? then s.shared else Some(list), s.own[n := list])
  }

  function Run(s: Lists, steps: seq<Step>): Lists {
    if steps == [] then s else Apply(Run(s, steps[..|steps| - 1]), steps[|steps| - 1])
  }

  /** A reader keeps the list it saw, with its answer, as its own copy; other nodes keep theirs. */
  lemma ReaderKeepsCopy(s: Lists, n: Node, id: nat, indexed: VoteType, m: Node, other: nat)
    ensures var after, seen := Apply(s, Read(n, id, indexed)), Seen(s, n);
      && n in after.own
      && Lookup(after.own[n], id) == Some(if Lookup(seen, id).Some? then Lookup(seen, id).value else indexed)
      && (other != id ==> Lookup(after.own[n], other) == Lookup(seen, other))
      && (Lookup(seen, id).None? ==> after.shared == Some(after.own[n]))
      && (Lookup(seen, id).Some? ==> after.shared == s.shared)
      && (m != n ==> Own(after, m) == Own(s, m))
  {
    LookupAppend(Seen(s, n), UserVote(id, indexed), id);
    LookupAppend(Seen(s, n), UserVote(id, indexed), other);
  }

  /** After an event no node has an own copy, and the shared list is the handler's with the event's vote. */
  lemma EventDropsCopies(s: Lists, n: Node, id: nat, vote: VoteType, other: nat)
    ensures var after := Apply(s, Handle(n, id, vote));
      && after.own == map[] && after.shared.Some?
      && Lookup(after.shared.value, other) == if other == id then Some(vote) else Lookup(Seen(s, n), other)
  {
    LookupAfterRecord(Seen(s, n), id, vote, other);
  }

  /** The vote of the last event on a proposal. */
  function LastVote(steps: seq<Step>, id: nat): Option<VoteType> {
    if steps == [] then None
    else
      var last := steps[|steps| - 1];
      if last.Handle? && last.proposalId == id then Some(last.vote) else LastVote(steps[..|steps| - 1], id)
  }

  /** Every list, shared or own, has one entry a proposal at most. */
  predicate OneEach(s: Lists) {
    && (s.shared.Some? ==> DistinctIds(s.shared.value))
    && (forall n | n in s.own :: DistinctIds(s.own[n]))
  }

  /** The shared list and every own copy list this vote. */
  predicate Everywhere(s: Lists, id: nat, vote: VoteType) {
    && s.shared.Some? && Lookup(s.shared.value, id) == Some(vote)
    && (forall n | n in s.own :: Lookup(s.own[n], id) == Some(vote))
  }

  lemma StepKeepsOneEach(s: Lists, step: Step)
    requires OneEach(s)
    ensures OneEach(Apply(s, step))
  {
    var list := Seen(s, step.node);
    assert DistinctIds(list);
    match step
    case Handle(n, id, vote) => LookupAfterStep(list, Event(id, vote), id);
    case Read(n, id, indexed) => LookupAfterStep(list, Fill(id, indexed), id);
  }

  lemma EventReachesAll(s: Lists, step: Step)
    requires OneEach(s) && step.Handle?
    ensures Everywhere(Apply(s, step), step.proposalId, step.vote)
  {
    LookupAfterStep(Seen(s, step.node), Event(step.proposalId, step.vote), step.proposalId);
  }

  lemma StepKeepsVote(s: Lists, step: Step, id: nat, vote: VoteType)
    requires OneEach(s) && Everywhere(s, id, vote)
    requires !(step.Handle? && step.proposalId == id)
    ensures Everywhere(Apply(s, step), id, vote)
  {
    var list := Seen(s, step.node);
    assert Lookup(list, id) == Some(vote);
    match step
    case Handle(n, other, v) => LookupAfterStep(list, Event(other, v), id);
    case Read(n, other, indexed) => LookupAfterStep(list, Fill(other, indexed), id);
  }

  /**
   * Whatever nodes handle events and read, in any order and from copies of any age: every list
   * keeps one entry a proposal at most, and once there was an event on a proposal, every list
   * has the vote of the last one.
   */
  lemma {:induction false} EventVotesSurvive(s: Lists, steps: seq<Step>, id: nat)
    requires OneEach(s)
    ensures OneEach(Run(s, steps))
    ensures LastVote(steps, id).Some? ==> Everywhere(Run(s, steps), id, LastVote(steps, id).value)
  {
    if steps != [] {
      var most, last := steps[..|steps| - 1], steps[|steps| - 1];
      EventVotesSurvive(s, most, id);
      var before := Run(s, most);
      StepKeepsOneEach(before, last);
      if last.Handle? && last.proposalId == id {
        EventReachesAll(before, last);
      } else if LastVote(most, id).Some? {
        StepKeepsVote(before, last, id, LastVote(most, id).value);
      }
    }
  }

  /** So a reader on any node is answered with the vote of the last event, whatever the index would say. */
  lemma ReaderSeesLastEvent(s: Lists, steps: seq<Step>, n: Node, id: nat, indexed: VoteType)
    requires OneEach(s) && LastVote(steps, id).Some?
    ensures Lookup(FillVote(Seen(Run(s, steps), n), id, indexed), id) == LastVote(steps, id)
  {
    EventVotesSurvive(s, steps, id);
  }

  /**
   * A vote that was only filled can be lost: a reader drops an entry from the shared list exactly
   * when its own copy lacks that entry and the one it fills.
   */
  lemma ReaderDropsExactly(s: Lists, n: Node, id: nat, indexed: VoteType, other: nat)
    requires s.shared.Some? && Lookup(s.shared.value, other).Some?
    ensures var after := Apply(s, Read(n, id, indexed)).shared;
      && after.Some?
      && (Lookup(after.value, other).None? <==>
          id != other && Lookup(Seen(s, n), id).None? && Lookup(Seen(s, n), other).None?)
  {
    LookupAppend(Seen(s, n), UserVote(id, indexed), other);
  }
}
