/**
 * Cache keys: parts joined by dots. Values and setters meet in the shared cache by building
 * the same text, and must not meet by accident.
 */
module CacheKey {
  import opened Text

  /** Each part is followed by the separator, and the last separator is cut off. */
  method GenerateCacheKeyFromParams(parts: seq<string>) returns (key: string)
    ensures key == Join(parts, '.')
    ensures parts != [] && AllFree(parts, '.') ==> Split(key, '.') == parts
  {
    var cacheKey := "";
    for i := 0 to |parts|
      invariant cacheKey == if i == 0 then "" else Join(parts[..i], '.') + "."
    {
      JoinSnoc(parts[..i], parts[i]);
      assert parts[..i + 1] == parts[..i] + [parts[i]];
      cacheKey := cacheKey + parts[i] + ".";
    }
    assert parts[..|parts|] == parts;
    key := if cacheKey == "" then "" else cacheKey[..|cacheKey| - 1];
    if parts != [] && AllFree(parts, '.') {
      SplitJoin(parts, '.');
    }
  }

  lemma {:induction false} JoinSnoc(parts: seq<string>, p: string)
    ensures Join(parts + [p], '.') == if parts == [] then p else Join(parts, '.') + "." + p
  {
    if |parts| > 1 {
      JoinSnoc(parts[1..], p);
      assert (parts + [p])[1..] == parts[1..] + [p];
    } else if |parts| == 1 {
      assert (parts + [p])[1..] == [p];
    }
  }

  /**
   * Lists of dot-free parts get the same key only if they are equal, or one is empty and the
   * other a lone empty part.
   */
  lemma KeysMeetExactly(a: seq<string>, b: seq<string>)
    requires AllFree(a, '.') && AllFree(b, '.')
    ensures Join(a, '.') == Join(b, '.') <==> a == b || (a == [] && b == [""]) || (a == [""] && b == [])
  {
    if a != [] {
      SplitJoin(a, '.');
    }
    if b != [] {
      SplitJoin(b, '.');
    }
  }

  // ----- The keys of the governance setters -----

  datatype GovernanceKey =
    | UserVotedProposals(contract: string, user: string)
    | UserVoteTypesForContract(contract: string, user: string)
    | ProposalVotes(contract: string, proposalId: nat)
    | Proposals(contract: string)
    | GetProposal(nonce: nat)
    | GetConfig
    | ProposalStatus(contract: string, proposalId: nat)
  {
    /** What a setter passes after its base key: the name of the cached method and its arguments. */
    function MethodAndArguments(): seq<string> {
      match this
      case UserVotedProposals(c, u) => ["userVotedProposals", c, u]
      case UserVoteTypesForContract(c, u) => ["userVoteTypesForContract", c, u]
      case ProposalVotes(c, p) => ["proposalVotes", c, Decimal(p)]
      case Proposals(c) => ["proposals", c]
      case GetProposal(n) => ["getProposal", Decimal(n)]
      case GetConfig => ["getConfig"]
      case ProposalStatus(c, p) => ["proposalStatus", c, Decimal(p)]
    }

    function Rendered(): string {
      Join(["governance"] + MethodAndArguments(), '.')
    }

    predicate DotFree() {
      && (UserVotedProposals? || UserVoteTypesForContract? ==> '.' !in contract && '.' !in user)
      && (ProposalVotes? || Proposals? || ProposalStatus? ==> '.' !in contract)
    }
  }

  lemma MethodsDotFree()
    ensures AllFree(["governance", "userVotedProposals", "userVoteTypesForContract", "proposalVotes", "proposals",
                     "getProposal", "getConfig", "proposalStatus"], '.')
  {
  }

  lemma PartsDotFree(k: GovernanceKey)
    requires k.DotFree()
    ensures AllFree(["governance"] + k.MethodAndArguments(), '.')
  {
    MethodsDotFree();
  }

  /** The keys as they are written. */
  lemma RenderedIs(k: GovernanceKey)
    ensures k.Rendered() ==
            match k
            case UserVotedProposals(c, u) => "governance" + "." + "userVotedProposals" + "." + c + "." + u
            case UserVoteTypesForContract(c, u) => "governance" + "." + "userVoteTypesForContract" + "." + c + "." + u
            case ProposalVotes(c, p) => "governance" + "." + "proposalVotes" + "." + c + "." + Decimal(p)
            case Proposals(c) => "governance" + "." + "proposals" + "." + c
            case GetProposal(n) => "governance" + "." + "getProposal" + "." + Decimal(n)
            case GetConfig => "governance" + "." + "getConfig"
            case ProposalStatus(c, p) => "governance" + "." + "proposalStatus" + "." + c + "." + Decimal(p)
  {
    var parts := k.MethodAndArguments();
    match |parts|
    case 1 => JoinTwo("governance", parts[0]);
    case 2 => JoinThree("governance", parts[0], parts[1]);
    case _ => JoinFour("governance", parts[0], parts[1], parts[2]);
  }

  lemma JoinTwo(a: string, b: string)
    ensures Join([a] + [b], '.') == a + "." + b
  {
    JoinSnoc([a], b);
  }

  lemma JoinThree(a: string, b: string, c: string)
    ensures Join([a] + [b, c], '.') == a + "." + b + "." + c
  {
    JoinTwo(a, b);
    JoinSnoc([a] + [b], c);
    assert [a] + [b] + [c] == [a] + [b, c];
  }

  lemma JoinFour(a: string, b: string, c: string, d: string)
    ensures Join([a] + [b, c, d], '.') == a + "." + b + "." + c + "." + d
  {
    JoinThree(a, b, c);
    JoinSnoc([a] + [b, c], d);
    assert [a] + [b, c] + [d] == [a] + [b, c, d];
  }

  /** Two values of the governance cache share an entry only if they are the same value. */
  lemma GovernanceKeysDistinct(j: GovernanceKey, k: GovernanceKey)
    requires j.DotFree() && k.DotFree() && j.Rendered() == k.Rendered()
    ensures j == k
  {
    PartsDotFree(j);
    PartsDotFree(k);
    var a, b := ["governance"] + j.MethodAndArguments(), ["governance"] + k.MethodAndArguments();
    KeysMeetExactly(a, b);
    assert a[1..] == j.MethodAndArguments() && b[1..] == k.MethodAndArguments();
    assert j.MethodAndArguments()[0] == k.MethodAndArguments()[0];
    if (j.ProposalVotes? && k.ProposalVotes?) || (j.ProposalStatus? && k.ProposalStatus?) {
      DecimalInjective(j.proposalId, k.proposalId);
    } else if j.GetProposal? && k.GetProposal? {
      DecimalInjective(j.nonce, k.nonce);
    }
  }

  /**
   * A setter and a cached method use the same entry exactly when they name the same base key,
   * method and arguments.
   */
  lemma SetterMeetsReader(setterBase: string, setterArgs: seq<string>,
                          readerBase: string, methodName: string, args: seq<string>)
    requires AllFree([setterBase] + setterArgs, '.') && AllFree([readerBase, methodName] + args, '.')
    ensures Join([setterBase] + setterArgs, '.') == Join([readerBase, methodName] + args, '.') <==>
            setterBase == readerBase && setterArgs == [methodName] + args
  {
    var a, b := [setterBase] + setterArgs, [readerBase, methodName] + args;
    KeysMeetExactly(a, b);
    assert a[1..] == setterArgs && b[1..] == [methodName] + args;
  }
}
