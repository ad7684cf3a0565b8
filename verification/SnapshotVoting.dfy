/**
 * Votes backed by a snapshot tree: the trees cached by root hash, and the power and proof
 * that a pulse vote attaches.
 */
module SnapshotVoting {
  import opened Encoding
  import opened Wrappers
  import opened MerkleTree
  import opened VotingPower

  datatype Failure = SnapshotMissing | RootMismatch | NoVotingPower | NoLeaf

  datatype Ballot = Ballot(power: nat, proof: Bytes)

  function BalanceOf(leaves: seq<AddressVotingPower>, address: Digest): nat {
    var leaf := FindLeaf(leaves, address);
    if leaf.None? then 0 else leaf.value.balance
  }

  /** The first leaf of the address stands at this place. */
  predicate IsFirstOf(leaves: seq<AddressVotingPower>, address: Digest, i: nat) {
    i < |leaves| && leaves[i].address == address && forall j | 0 <= j < i :: leaves[j].address != address
  }

  /** The answer about an address: the balance of its first leaf, and 0 if it has none. */
  ghost predicate IsBalanceIn(leaves: seq<AddressVotingPower>, address: Digest, balance: nat) {
    && (forall i: nat | IsFirstOf(leaves, address, i) :: balance == leaves[i].balance)
    && ((forall x | x in leaves :: x.address != address) ==> balance == 0)
  }

  lemma BalanceIs(leaves: seq<AddressVotingPower>, address: Digest)
    ensures IsBalanceIn(leaves, address, BalanceOf(leaves, address))
  {
    forall i: nat | IsFirstOf(leaves, address, i)
      ensures BalanceOf(leaves, address) == leaves[i].balance
    {
      FirstIsFound(leaves, address, i);
    }
  }

  type Leaves = Result<seq<AddressVotingPower>, Failure>

  /** The smoothing function of a contract of this kind. */
  function SmoothingOf(kind: Smoothing): nat -> nat {
    n => Smooth(kind, n)
  }

  function PowerFrom(smooth: nat -> nat, leaves: Leaves, address: Digest): Result<nat, Failure> {
    match leaves
    case Err(e) => Err(e)
    case Ok(ls) => Ok(smooth(BalanceOf(ls, address)))
  }

  /** The proof of the first leaf with this address. */
  function ProofBytes(h: Hasher, leaves: Leaves, address: Digest): Result<Bytes, Failure> {
    match leaves
    case Err(e) => Err(e)
    case Ok(ls) =>
      var leaf := FindLeaf(ls, address);
      if leaf.None? then Err(NoLeaf)
      else Ok(Flatten(ProofOf(Layers(h, LeafDigests(h, ls)), LeafDigest(h, leaf.value))))
  }

  /** What a vote attaches, given the outcomes of looking up the power and then the proof. */
  function CastBallot(power: Result<nat, Failure>, proof: Result<Bytes, Failure>): Result<Ballot, Failure> {
    if power.Err? then Err(power.error)
    else if power.value == 0 then Err(NoVotingPower)
    else if proof.Err? then Err(proof.error)
    else Ok(Ballot(power.value, proof.value))
  }

  /** The ballot when both looks see the same tree. */
  function BallotFrom(h: Hasher, kind: Smoothing, leaves: seq<AddressVotingPower>, sender: Digest):
    Result<Ballot, Failure>
  {
    CastBallot(PowerFrom(SmoothingOf(kind), Ok(leaves), sender), ProofBytes(h, Ok(leaves), sender))
  }

  /** While the root stays the same, the proof is asked for only when the sender has a leaf. */
  lemma BallotNeverLacksLeaf(h: Hasher, kind: Smoothing, leaves: seq<AddressVotingPower>, sender: Digest)
    ensures BallotFrom(h, kind, leaves, sender) != Err(NoLeaf)
    ensures BallotFrom(h, kind, leaves, sender).Ok? <==> Smooth(kind, BalanceOf(leaves, sender)) > 0
  {
    SmoothZero(kind);
  }

  /** The check the contract makes: the claimed power is an authenticated leaf of the sender. */
  predicate Authenticates(h: Hasher, leaves: seq<AddressVotingPower>, sender: Digest, ballot: Ballot)
    requires leaves != []
  {
    FoldProof(h, LeafDigest(h, AddressVotingPower(sender, ballot.power)), Chunks(ballot.proof)) ==
    Root(h, LeafDigests(h, leaves))
  }

  lemma FindLeafIsMember(leaves: seq<AddressVotingPower>, address: Digest)
    requires FindLeaf(leaves, address).Some?
    ensures FindLeaf(leaves, address).value in leaves && FindLeaf(leaves, address).value.address == address
  {
  }

  /** A vote whose power is the balance itself carries a proof that folds to the root. */
  lemma BallotAuthenticates(h: Hasher, kind: Smoothing, leaves: seq<AddressVotingPower>, sender: Digest)
    requires BallotFrom(h, kind, leaves, sender).Ok?
    requires Smooth(kind, BalanceOf(leaves, sender)) == BalanceOf(leaves, sender)
    ensures leaves != [] && Authenticates(h, leaves, sender, BallotFrom(h, kind, leaves, sender).value)
  {
    ProofIsOfFirstLeaf(h, kind, leaves, sender);
  }

  /** What a sender gets for the first leaf: the smoothed balance as power, or a refusal if that is 0. */
  lemma BallotOfFirst(h: Hasher, kind: Smoothing, leaves: seq<AddressVotingPower>, sender: Digest, i: nat)
    requires IsFirstOf(leaves, sender, i)
    ensures var ballot, power := BallotFrom(h, kind, leaves, sender), Smooth(kind, leaves[i].balance);
      if power > 0 then ballot.Ok? && ballot.value.power == power else ballot == Err(NoVotingPower)
  {
    BalanceIs(leaves, sender);
    BallotNeverLacksLeaf(h, kind, leaves, sender);
  }

  lemma BallotOfNone(h: Hasher, kind: Smoothing, leaves: seq<AddressVotingPower>, sender: Digest)
    requires forall x | x in leaves :: x.address != sender
    ensures BallotFrom(h, kind, leaves, sender) == Err(NoVotingPower)
  {
    SmoothZero(kind);
    BalanceIs(leaves, sender);
  }

  /** Every user with a positive balance on a linear contract gets a vote that the contract can check. */
  lemma LinearBallotAuthenticates(h: Hasher, leaves: seq<AddressVotingPower>, sender: Digest, i: nat)
    requires IsFirstOf(leaves, sender, i) && leaves[i].balance > 0
    ensures var ballot := BallotFrom(h, Linear, leaves, sender);
      && ballot.Ok? && ballot.value.power == leaves[i].balance
      && Authenticates(h, leaves, sender, ballot.value)
  {
    BalanceIs(leaves, sender);
    LinearIsIdentity(leaves[i].balance);
    BallotAuthenticates(h, Linear, leaves, sender);
  }

  /** A square root leaves only the balances 0 and 1 unchanged. */
  lemma CvadraticFixedPoints(n: nat)
    ensures Smooth(Cvadratic, n) == n <==> n <= 1
  {
    if n <= 1 {
      SmoothSquare(n);
    } else if n == 2 {
      NearestRootUnique(2, 1, NearestRoot(2));
      SmoothIsNearestRoot(2);
    } else {
      assert n <= (n - 1) * (n - 1);
      SmoothMonotone(Cvadratic, n, (n - 1) * (n - 1));
      SmoothSquare(n - 1);
    }
  }

  /** No collision among what is hashed from two leaves and while folding a proof from each. */
  ghost predicate FoldsCollisionFree(h: Hasher, x: AddressVotingPower, y: AddressVotingPower, proof: seq<Digest>) {
    CollisionFree(h, {LeafInput(x), LeafInput(y)} + FoldInputs(h, LeafDigest(h, x), proof) +
                     FoldInputs(h, LeafDigest(h, y), proof))
  }

  /** One proof authenticates one leaf. */
  lemma SameProofSameLeaf(h: Hasher, x: AddressVotingPower, y: AddressVotingPower, proof: seq<Digest>)
    requires FoldsCollisionFree(h, x, y, proof)
    requires FoldProof(h, LeafDigest(h, x), proof) == FoldProof(h, LeafDigest(h, y), proof)
    ensures x == y
  {
    var folds := FoldInputs(h, LeafDigest(h, x), proof) + FoldInputs(h, LeafDigest(h, y), proof);
    var inputs := {LeafInput(x), LeafInput(y)} + folds;
    assert inputs == {LeafInput(x), LeafInput(y)} + FoldInputs(h, LeafDigest(h, x), proof) +
                     FoldInputs(h, LeafDigest(h, y), proof);
    FoldInjective(h, LeafDigest(h, x), LeafDigest(h, y), proof, inputs);
    LeafInputInjective(x, y);
  }

  /**
   * The vote is accepted exactly when smoothing left the balance alone: always on a linear
   * contract, and only for a balance of 1 on a quadratic one. The sender may be listed with
   * several balances: power and proof are both of the first.
   */
  lemma BallotAuthenticatesExactly(h: Hasher, kind: Smoothing, leaves: seq<AddressVotingPower>, sender: Digest)
    requires BallotFrom(h, kind, leaves, sender).Ok?
    requires var ballot := BallotFrom(h, kind, leaves, sender).value;
      var claimed := AddressVotingPower(sender, ballot.power);
      var held := AddressVotingPower(sender, BalanceOf(leaves, sender));
      FoldsCollisionFree(h, claimed, held, Chunks(ballot.proof))
    ensures leaves != []
    ensures Authenticates(h, leaves, sender, BallotFrom(h, kind, leaves, sender).value) <==>
            kind.Linear? || BalanceOf(leaves, sender) == 1
  {
    var balance := BalanceOf(leaves, sender);
    FixedExactly(kind, balance);
    if Smooth(kind, balance) == balance {
      BallotAuthenticates(h, kind, leaves, sender);
    } else {
      OtherPowerFails(h, kind, leaves, sender);
    }
  }

  lemma LeafProofFolds(h: Hasher, leaves: seq<AddressVotingPower>, sender: Digest)
    requires FindLeaf(leaves, sender).Some?
    ensures leaves != []
    ensures var leaf, proof := FindLeaf(leaves, sender).value, ProofBytes(h, Ok(leaves), sender).value;
      FoldProof(h, LeafDigest(h, leaf), Chunks(proof)) == Root(h, LeafDigests(h, leaves))
  {
    FindLeafIsMember(leaves, sender);
    var leaf := FindLeaf(leaves, sender).value;
    var nodes := LeafDigests(h, leaves);
    LeafDigestIn(h, leaves, leaf);
    ChunksOfFlatten(ProofOf(Layers(h, nodes), LeafDigest(h, leaf)));
    ProofFoldsToRoot(h, nodes, IndexOf(nodes, LeafDigest(h, leaf)).value);
  }

  /** The proof attached to a ballot folds from the sender's first leaf to the root. */
  lemma ProofIsOfFirstLeaf(h: Hasher, kind: Smoothing, leaves: seq<AddressVotingPower>, sender: Digest)
    requires BallotFrom(h, kind, leaves, sender).Ok?
    ensures leaves != []
    ensures FoldProof(h, LeafDigest(h, AddressVotingPower(sender, BalanceOf(leaves, sender))),
                      Chunks(BallotFrom(h, kind, leaves, sender).value.proof)) == Root(h, LeafDigests(h, leaves))
  {
    SmoothZero(kind);
    FindLeafIsMember(leaves, sender);
    LeafProofFolds(h, leaves, sender);
  }

  /** A positive power is the balance exactly on a linear contract or for a balance of 1. */
  lemma FixedExactly(kind: Smoothing, balance: nat)
    ensures Smooth(kind, balance) > 0 ==> (Smooth(kind, balance) == balance <==> kind.Linear? || balance == 1)
  {
    SmoothZero(kind);
    CvadraticFixedPoints(balance);
    LinearIsIdentity(balance);
  }

  lemma OtherPowerFails(h: Hasher, kind: Smoothing, leaves: seq<AddressVotingPower>, sender: Digest)
    requires BallotFrom(h, kind, leaves, sender).Ok?
    requires Smooth(kind, BalanceOf(leaves, sender)) != BalanceOf(leaves, sender)
    requires var ballot := BallotFrom(h, kind, leaves, sender).value;
      var claimed := AddressVotingPower(sender, ballot.power);
      var held := AddressVotingPower(sender, BalanceOf(leaves, sender));
      FoldsCollisionFree(h, claimed, held, Chunks(ballot.proof))
    ensures leaves != [] && !Authenticates(h, leaves, sender, BallotFrom(h, kind, leaves, sender).value)
  {
    var ballot := BallotFrom(h, kind, leaves, sender).value;
    var claimed := AddressVotingPower(sender, ballot.power);
    var held := AddressVotingPower(sender, BalanceOf(leaves, sender));
    ProofIsOfFirstLeaf(h, kind, leaves, sender);
    if Authenticates(h, leaves, sender, ballot) {
      SameProofSameLeaf(h, claimed, held, Chunks(ballot.proof));
    }
  }

  /** No proof of any origin authenticates a power that is the balance of no leaf of the sender. */
  lemma ForeignPowerFails(h: Hasher, leaves: seq<AddressVotingPower>, sender: Digest, ballot: Ballot)
    requires leaves != [] && AddressVotingPower(sender, ballot.power) !in leaves
    requires !(Pow256(31) <= ballot.power < Pow256(32))
    requires forall x | x in leaves :: !(Pow256(31) <= x.balance < Pow256(32))
    requires var claim := AddressVotingPower(sender, ballot.power);
      CollisionFree(h, LeafInputs([claim] + leaves) + TreeInputs(h, LeafDigests(h, leaves)) +
                       FoldInputs(h, LeafDigest(h, claim), Chunks(ballot.proof)))
    ensures !Authenticates(h, leaves, sender, ballot)
  {
    var claim := AddressVotingPower(sender, ballot.power);
    assert forall y | y in [claim] + leaves :: y == claim || y in leaves;
    if Authenticates(h, leaves, sender, ballot) {
      AnyProofShowsMembership(h, leaves, claim, Chunks(ballot.proof));
    }
  }

  lemma SmoothAtMost(kind: Smoothing, n: nat)
    ensures Smooth(kind, n) <= n
  {
    LinearIsIdentity(n);
    if kind.Cvadratic? {
      assert n <= n * n;
      SmoothMonotone(Cvadratic, n, n * n);
      SmoothSquare(n);
    }
  }

  // ----- The trees cached by root hash -----

  /** The leaves of the cached trees. */
  type Cached = map<string, seq<AddressVotingPower>>

  predicate HashesTo(h: Hasher, leaves: seq<AddressVotingPower>, root: string) {
    HexNode(TopOf(Layers(h, LeafDigests(h, leaves)))) == "0x" + root
  }

  /** The leaves behind a root: those of the cached tree, else those on file if they hash to this root. */
  function Load(h: Hasher, cached: Cached, root: string, file: Option<seq<AddressVotingPower>>): Leaves {
    if root in cached then Ok(cached[root])
    else if file.None? then Err(SnapshotMissing)
    else if !HashesTo(h, file.value, root) then Err(RootMismatch)
    else Ok(file.value)
  }

  /** A file is taken exactly if the root of its leaves, in hexadecimal, is the one asked for. */
  lemma LoadExactly(h: Hasher, cached: Cached, root: string, file: Option<seq<AddressVotingPower>>,
                    leaves: seq<AddressVotingPower>)
    ensures Load(h, cached, root, file) == Ok(leaves) <==>
            if root in cached then leaves == cached[root]
            else file == Some(leaves) && root == if leaves == [] then "" else ToHex(Root(h, LeafDigests(h, leaves)))
    ensures Load(h, cached, root, file) == Err(SnapshotMissing) <==> root !in cached && file.None?
    ensures Load(h, cached, root, file).Err? ==> Load(h, cached, root, file).error in {SnapshotMissing, RootMismatch}
  {
    if file.Some? {
      HashesToIs(h, file.value, root);
    }
  }

  lemma HashesToIs(h: Hasher, leaves: seq<AddressVotingPower>, root: string)
    ensures HashesTo(h, leaves, root) <==>
            root == if leaves == [] then "" else ToHex(Root(h, LeafDigests(h, leaves)))
  {
    var nodes := LeafDigests(h, leaves);
    var text := HexNode(TopOf(Layers(h, nodes)));
    assert ("0x" + root)[2..] == root;
    if leaves == [] {
      assert Layers(h, nodes) == [nodes];
      assert text == "0x" + "";
    } else {
      assert text == "0x" + ToHex(Root(h, nodes));
      assert text[2..] == ToHex(Root(h, nodes));
    }
  }

  function AfterLoad(h: Hasher, cached: Cached, root: string, file: Option<seq<AddressVotingPower>>): Cached {
    var leaves := Load(h, cached, root, file);
    if leaves.Ok? then cached[root := leaves.value] else cached
  }

  /** A root that was loaded once answers the same ever after, whatever is then loaded and whatever is on file. */
  lemma LoadedStays(h: Hasher, cached: Cached, root: string, file: Option<seq<AddressVotingPower>>,
                    other: string, otherFile: Option<seq<AddressVotingPower>>, later: Option<seq<AddressVotingPower>>)
    requires Load(h, cached, root, file).Ok?
    ensures Load(h, AfterLoad(h, AfterLoad(h, cached, root, file), other, otherFile), root, later) ==
            Load(h, cached, root, file)
  {
  }

  /** The answer of a vote, with the root hash asked for twice: once for the power and once for the proof. */
  function VoteOutcome(h: Hasher, smooth: nat -> nat, cached: Cached, sender: Digest,
                       rootForPower: string, fileForPower: Option<seq<AddressVotingPower>>,
                       rootForProof: string, fileForProof: Option<seq<AddressVotingPower>>): Result<Ballot, Failure>
  {
    CastBallot(
      PowerFrom(smooth, Load(h, cached, rootForPower, fileForPower), sender),
      ProofBytes(h, Load(h, AfterLoad(h, cached, rootForPower, fileForPower), rootForProof, fileForProof), sender))
  }

  /** While the root hash stays the same, power and proof come from the same tree. */
  lemma SameRootSameTree(h: Hasher, kind: Smoothing, cached: Cached, sender: Digest, root: string,
                         fileForPower: Option<seq<AddressVotingPower>>, fileForProof: Option<seq<AddressVotingPower>>)
    ensures VoteOutcome(h, SmoothingOf(kind), cached, sender, root, fileForPower, root, fileForProof) ==
            match Load(h, cached, root, fileForPower)
            case Err(e) => Err(e)
            case Ok(leaves) => BallotFrom(h, kind, leaves, sender)
  {
  }

  /**
   * When the root hash changes in between, the power is of the first tree and the proof of the
   * second: it folds to the second root.
   */
  lemma VoteAcrossRoots(h: Hasher, smooth: nat -> nat, cached: Cached, sender: Digest,
                        rootForPower: string, fileForPower: Option<seq<AddressVotingPower>>,
                        rootForProof: string, fileForProof: Option<seq<AddressVotingPower>>,
                        first: seq<AddressVotingPower>, second: seq<AddressVotingPower>, balance: nat, i: nat)
    requires Load(h, cached, rootForPower, fileForPower) == Ok(first)
    requires Load(h, AfterLoad(h, cached, rootForPower, fileForPower), rootForProof, fileForProof) == Ok(second)
    requires IsBalanceIn(first, sender, balance) && smooth(balance) > 0 && IsFirstOf(second, sender, i)
    ensures var r := VoteOutcome(h, smooth, cached, sender, rootForPower, fileForPower, rootForProof, fileForProof);
      && r.Ok? && r.value.power == smooth(balance)
      && FoldProof(h, LeafDigest(h, second[i]), Chunks(r.value.proof)) == Root(h, LeafDigests(h, second))
  {
    OutcomeAcrossRoots(h, smooth, cached, sender, rootForPower, fileForPower, rootForProof, fileForProof,
                       first, second, balance);
    ProofOfFirst(h, second, sender, i);
  }

  lemma OutcomeAcrossRoots(h: Hasher, smooth: nat -> nat, cached: Cached, sender: Digest,
                           rootForPower: string, fileForPower: Option<seq<AddressVotingPower>>,
                           rootForProof: string, fileForProof: Option<seq<AddressVotingPower>>,
                           first: seq<AddressVotingPower>, second: seq<AddressVotingPower>, balance: nat)
    requires Load(h, cached, rootForPower, fileForPower) == Ok(first)
    requires Load(h, AfterLoad(h, cached, rootForPower, fileForPower), rootForProof, fileForProof) == Ok(second)
    requires IsBalanceIn(first, sender, balance)
    ensures VoteOutcome(h, smooth, cached, sender, rootForPower, fileForPower, rootForProof, fileForProof) ==
            CastBallot(Ok(smooth(balance)), ProofBytes(h, Ok(second), sender))
  {
    BalanceDetermined(first, sender, balance);
  }

  lemma ProofOfFirst(h: Hasher, leaves: seq<AddressVotingPower>, sender: Digest, i: nat)
    requires IsFirstOf(leaves, sender, i)
    ensures var proof := ProofBytes(h, Ok(leaves), sender);
      proof.Ok? && FoldProof(h, LeafDigest(h, leaves[i]), Chunks(proof.value)) == Root(h, LeafDigests(h, leaves))
  {
    FirstIsFound(leaves, sender, i);
    LeafProofFolds(h, leaves, sender);
  }

  /** And it fails if the sender is no longer listed there. */
  lemma VoteAcrossRootsFails(h: Hasher, smooth: nat -> nat, cached: Cached, sender: Digest,
                             rootForPower: string, fileForPower: Option<seq<AddressVotingPower>>,
                             rootForProof: string, fileForProof: Option<seq<AddressVotingPower>>,
                             first: seq<AddressVotingPower>, second: seq<AddressVotingPower>, balance: nat)
    requires Load(h, cached, rootForPower, fileForPower) == Ok(first)
    requires Load(h, AfterLoad(h, cached, rootForPower, fileForPower), rootForProof, fileForProof) == Ok(second)
    requires IsBalanceIn(first, sender, balance) && forall x | x in second :: x.address != sender
    ensures VoteOutcome(h, smooth, cached, sender, rootForPower, fileForPower, rootForProof, fileForProof) ==
            Err(if smooth(balance) > 0 then NoLeaf else NoVotingPower)
  {
    OutcomeAcrossRoots(h, smooth, cached, sender, rootForPower, fileForPower, rootForProof, fileForProof,
                       first, second, balance);
  }

  lemma FirstIsFound(leaves: seq<AddressVotingPower>, address: Digest, i: nat)
    requires IsFirstOf(leaves, address, i)
    ensures FindLeaf(leaves, address) == Some(leaves[i])
  {
    var leaf := FindLeaf(leaves, address);
    assert leaves[i] in leaves && leaf.Some?;
    var j :| 0 <= j < |leaves| && leaves[j] == leaf.value && leaf.value.address == address
      && forall k | 0 <= k < j :: leaves[k].address != address;
    assert !(i < j) && !(j < i);
  }

  lemma BalanceDetermined(leaves: seq<AddressVotingPower>, address: Digest, balance: nat)
    requires IsBalanceIn(leaves, address, balance)
    ensures balance == BalanceOf(leaves, address)
  {
    var leaf := FindLeaf(leaves, address);
    if leaf.Some? {
      var i :| 0 <= i < |leaves| && leaves[i] == leaf.value && leaf.value.address == address
        && forall j | 0 <= j < i :: leaves[j].address != address;
      assert IsFirstOf(leaves, address, i);
    }
  }

  class GovernanceTokenSnapshotMerkleService {
    const hash: Hasher
    var merkleTrees: map<string, MerkleTreeUtils>
    ghost var contents: Cached

    /** Every cached tree has the root it is cached under. */
    ghost predicate Valid()
      reads this
    {
      && contents.Keys == merkleTrees.Keys
      && forall root | root in merkleTrees ::
           var tree := merkleTrees[root];
           tree.Valid() && tree.hash == hash && tree.leaves == contents[root] && HashesTo(hash, tree.leaves, root)
    }

    constructor (hash: Hasher)
      ensures Valid() && this.hash == hash && contents == map[]
    {
      this.hash := hash;
      merkleTrees, contents := map[], map[];
    }

    method GetMerkleTree(root: string, file: Option<seq<AddressVotingPower>>)
      returns (r: Result<MerkleTreeUtils, Failure>)
      requires Valid()
      modifies this
      ensures Valid()
      ensures contents == AfterLoad(hash, old(contents), root, file)
      ensures match Load(hash, old(contents), root, file)
              case Err(e) => r == Err(e)
              case Ok(leaves) => r.Ok? && r.value.Valid() && r.value.hash == hash && r.value.leaves == leaves
    {
      if root in merkleTrees {
        r := Ok(merkleTrees[root]);
      } else {
        r := CreateMerkleTree(root, file);
      }
    }

    method CreateMerkleTree(root: string, file: Option<seq<AddressVotingPower>>)
      returns (r: Result<MerkleTreeUtils, Failure>)
      requires Valid() && root !in merkleTrees
      modifies this
      ensures Valid()
      ensures contents == AfterLoad(hash, old(contents), root, file)
      ensures match Load(hash, old(contents), root, file)
              case Err(e) => r == Err(e)
              case Ok(leaves) => r.Ok? && r.value.Valid() && r.value.hash == hash && r.value.leaves == leaves
    {
      if file.None? {
        return Err(SnapshotMissing);
      }
      var tree := new MerkleTreeUtils(hash, file.value);
      if tree.GetRootHash() != "0x" + root {
        return Err(RootMismatch);
      }
      merkleTrees, contents := merkleTrees[root := tree], contents[root := file.value];
      return Ok(tree);
    }

    method GetAddressBalance(root: string, file: Option<seq<AddressVotingPower>>, address: Digest)
      returns (r: Result<nat, Failure>)
      requires Valid()
      modifies this
      ensures Valid()
      ensures contents == AfterLoad(hash, old(contents), root, file)
      ensures r == PowerFrom(n => n, Load(hash, old(contents), root, file), address)
      ensures match Load(hash, old(contents), root, file)
              case Err(e) => r == Err(e)
              case Ok(leaves) => r.Ok? && IsBalanceIn(leaves, address, r.value)
    {
      var tree := GetMerkleTree(root, file);
      if tree.Err? {
        return Err(tree.error);
      }
      BalanceIs(tree.value.leaves, address);
      var leaf := tree.value.GetUserLeaf(address);
      return Ok(if leaf.None? then 0 else leaf.value.balance);
    }
  }

  class GovernancePulseService {
    const merkleTreeService: GovernanceTokenSnapshotMerkleService

    constructor (service: GovernanceTokenSnapshotMerkleService)
      ensures merkleTreeService == service
    {
      merkleTreeService := service;
    }

    method GetUserVotingPower(smooth: nat -> nat, root: string, file: Option<seq<AddressVotingPower>>, address: Digest)
      returns (r: Result<nat, Failure>)
      requires merkleTreeService.Valid()
      modifies merkleTreeService
      ensures merkleTreeService.Valid()
      ensures merkleTreeService.contents ==
              AfterLoad(merkleTreeService.hash, old(merkleTreeService.contents), root, file)
      ensures r == PowerFrom(smooth, Load(merkleTreeService.hash, old(merkleTreeService.contents), root, file), address)
    {
      var balance := merkleTreeService.GetAddressBalance(root, file, address);
      if balance.Err? {
        return Err(balance.error);
      }
      return Ok(smooth(balance.value));
    }

    method GetProof(root: string, file: Option<seq<AddressVotingPower>>, address: Digest)
      returns (r: Result<Bytes, Failure>)
      requires merkleTreeService.Valid()
      modifies merkleTreeService
      ensures merkleTreeService.Valid()
      ensures merkleTreeService.contents ==
              AfterLoad(merkleTreeService.hash, old(merkleTreeService.contents), root, file)
      ensures r == ProofBytes(merkleTreeService.hash,
                              Load(merkleTreeService.hash, old(merkleTreeService.contents), root, file), address)
    {
      var tree := merkleTreeService.GetMerkleTree(root, file);
      if tree.Err? {
        return Err(tree.error);
      }
      var leaf := tree.value.GetUserLeaf(address);
      if leaf.None? {
        return Err(NoLeaf);
      }
      var proof := tree.value.GetProofBuffer(leaf.value);
      return Ok(proof);
    }

    method VotePoll(smooth: nat -> nat, sender: Digest,
                    rootForPower: string, fileForPower: Option<seq<AddressVotingPower>>,
                    rootForProof: string, fileForProof: Option<seq<AddressVotingPower>>)
      returns (r: Result<Ballot, Failure>)
      requires merkleTreeService.Valid()
      modifies merkleTreeService
      ensures merkleTreeService.Valid()
      ensures r == VoteOutcome(merkleTreeService.hash, smooth, old(merkleTreeService.contents), sender,
                               rootForPower, fileForPower, rootForProof, fileForProof)
    {
      var power := GetUserVotingPower(smooth, rootForPower, fileForPower, sender);
      if power.Err? {
        r := Err(power.error);
      } else if !(power.value > 0) {
        r := Err(NoVotingPower);
      } else {
        var proof := GetProof(rootForProof, fileForProof, sender);
        r := CastBallot(power, proof);
      }
    }
  }

  lemma SmoothZero(kind: Smoothing)
    ensures Smooth(kind, 0) == 0
  {
    SmoothSquare(0);
    LinearIsIdentity(0);
  }
}
