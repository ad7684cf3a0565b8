/**
 * The cache protocol: a writer sets the shared value, remembers the key, and later publishes
 * the keys it remembers to every node; a node drops its local copy of each published key.
 * Other writers, such as the reader that fills a user's vote list, set a value and drop the key.
 * Steps of any number of writers and nodes interleave freely, messages arrive in any order,
 * and a read that misses locally fetches the shared value in one step and stores it in
 * another.
 */
module CacheCoherence {
  import opened Wrappers

  type Key = string
  type Value = string
  type Node = nat
  type Writer = nat
  type Entries = map<Key, Value>

  datatype Message = Message(to: Node, keys: seq<Key>)

  /** A read between fetching and storing; `overtaken` once its key was invalidated on its node meanwhile. */
  datatype Fetch = Fetch(node: Node, key: Key, value: Value, overtaken: bool)

  datatype State = State(
    remote: Entries,
    local: map<Node, Entries>,
    held: map<Writer, seq<Key>>,
    inFlight: multiset<Message>,
    fetches: map<nat, Fetch>)

  datatype Step =
    | SetData(writer: Writer, node: Node, key: Key, value: Value)
    | SetUnpublished(node: Node, key: Key, value: Value)
    | DelData(writer: Writer, node: Node, key: Key)
    | Publish(writer: Writer)
    | Deliver(message: Message)
    | StartRead(id: nat, node: Node, key: Key)
    | FinishRead(id: nat)
    | Compute(node: Node, key: Key, value: Value)

  function Held(s: State, w: Writer): seq<Key> {
    if w in s.held then s.held[w] else []
  }

  function Invalidate(entries: Entries, keys: seq<Key>): Entries {
    map k | k in entries && k !in keys :: entries[k]
  }

  function Overtake(fetches: map<nat, Fetch>, m: Message): map<nat, Fetch> {
    map id | id in fetches ::
      var f := fetches[id];
      if f.node == m.to && f.key in m.keys then f.(overtaken := true) else f
  }

  predicate Enabled(s: State, step: Step) {
    match step
    case SetData(_, n, _, _) => n in s.local
    case SetUnpublished(n, _, _) => n in s.local
    case DelData(_, n, _) => n in s.local
    case Publish(w) => w in s.held
    case Deliver(m) => m in s.inFlight && m.to in s.local
    case StartRead(id, n, k) => id !in s.fetches && n in s.local && k !in s.local[n] && k in s.remote
    case FinishRead(id) => id in s.fetches && s.fetches[id].node in s.local
    case Compute(n, k, _) => n in s.local && k !in s.local[n] && k !in s.remote
  }

  function Apply(s: State, step: Step): State
    requires Enabled(s, step)
  {
    match step
    case SetData(w, n, k, v) =>
      s.(remote := s.remote[k := v], local := s.local[n := s.local[n][k := v]], held := s.held[w := Held(s, w) + [k]])
    case SetUnpublished(n, k, v) =>
      s.(remote := s.remote[k := v], local := s.local[n := s.local[n][k := v]])
    case DelData(w, n, k) =>
      s.(remote := s.remote - {k}, local := s.local[n := s.local[n] - {k}], held := s.held[w := Held(s, w) + [k]])
    case Publish(w) =>
      s.(held := s.held - {w}, inFlight := s.inFlight + multiset(set n | n in s.local :: Message(n, s.held[w])))
    case Deliver(m) =>
      s.(local := s.local[m.to := Invalidate(s.local[m.to], m.keys)], inFlight := s.inFlight - multiset{m},
         fetches := Overtake(s.fetches, m))
    case StartRead(id, n, k) =>
      s.(fetches := s.fetches[id := Fetch(n, k, s.remote[k], false)])
    case FinishRead(id) =>
      var f := s.fetches[id];
      s.(local := s.local[f.node := s.local[f.node][f.key := f.value]], fetches := s.fetches - {id})
    case Compute(n, k, v) =>
      s.(remote := s.remote[k := v], local := s.local[n := s.local[n][k := v]])
  }

  /**
   * A node can always write and delete; it reads its own copy, or fetches the shared value, or
   * computes it, one of the three.
   */
  lemma NodesCanAct(s: State, w: Writer, n: Node, id: nat, k: Key, v: Value)
    requires n in s.local && id !in s.fetches
    ensures Enabled(s, SetData(w, n, k, v)) && Enabled(s, SetUnpublished(n, k, v)) && Enabled(s, DelData(w, n, k))
    ensures Enabled(s, StartRead(id, n, k)) <==> k !in s.local[n] && k in s.remote
    ensures Enabled(s, Compute(n, k, v)) <==> k !in s.local[n] && k !in s.remote
    ensures w in s.held ==> Enabled(s, Publish(w))
    ensures forall m | m in s.inFlight && m.to == n :: Enabled(s, Deliver(m))
  {
  }

  /** A written value is what its writer and every node without a copy read next, and other keys stay as they are. */
  lemma WriteIsSeen(s: State, step: Step, n: Node, k: Key)
    requires (step.SetData? || step.SetUnpublished?) && Enabled(s, step) && n in s.local
    ensures var t := Apply(s, step);
      && step.key in t.remote && t.remote[step.key] == step.value
      && step.key in t.local[step.node] && t.local[step.node][step.key] == step.value
      && (k != step.key ==> (k in t.remote <==> k in s.remote) && (k in s.remote ==> t.remote[k] == s.remote[k]))
      && (n != step.node ==> t.local[n] == s.local[n])
      && (step.SetData? ==> step.writer in t.held && step.key in t.held[step.writer])
      && (step.SetUnpublished? ==> t.held == s.held)
      && t.inFlight == s.inFlight && t.fetches == s.fetches
  {
  }

  /** A deleted value is computed anew by its writer's next read, and its key is held for publication. */
  lemma DeletionIsSeen(s: State, w: Writer, n: Node, k: Key, v: Value)
    requires Enabled(s, DelData(w, n, k))
    ensures var t := Apply(s, DelData(w, n, k));
      && k !in t.remote && k !in t.local[n] && Enabled(t, Compute(n, k, v))
      && w in t.held && k in t.held[w] && t.inFlight == s.inFlight && t.fetches == s.fetches
  {
  }

  /** A publication sends every node all the keys its writer held, once, and the writer holds none after. */
  lemma PublicationReachesAll(s: State, w: Writer, n: Node)
    requires Enabled(s, Publish(w)) && n in s.local
    ensures var t := Apply(s, Publish(w));
      && w !in t.held && t.inFlight[Message(n, s.held[w])] == s.inFlight[Message(n, s.held[w])] + 1
      && t.remote == s.remote && t.local == s.local && t.fetches == s.fetches
  {
  }

  /** A delivery drops the node's copies of its keys and no others. */
  lemma DeliveryDrops(s: State, m: Message, n: Node, k: Key)
    requires Enabled(s, Deliver(m)) && n in s.local
    ensures var t := Apply(s, Deliver(m));
      && (k in t.local[n] <==> k in s.local[n] && !(n == m.to && k in m.keys))
      && (k in t.local[n] ==> t.local[n][k] == s.local[n][k])
      && t.remote == s.remote && t.held == s.held && t.inFlight == s.inFlight - multiset{m}
  {
  }

  /** A delivery overtakes the reads of its keys that are in progress on its node, and leaves what all have fetched. */
  lemma DeliveryOvertakes(s: State, m: Message, id: nat)
    requires Enabled(s, Deliver(m)) && id in s.fetches
    ensures var f, fetches := s.fetches[id], Apply(s, Deliver(m)).fetches;
      && id in fetches && fetches[id].node == f.node && fetches[id].key == f.key && fetches[id].value == f.value
      && (fetches[id].overtaken <==> f.overtaken || (f.node == m.to && f.key in m.keys))
  {
  }

  /** A read that misses locally ends with the shared value as it was when the read began. */
  lemma ReadGetsShared(s: State, id: nat, n: Node, k: Key)
    requires Enabled(s, StartRead(id, n, k))
    ensures var t := Apply(s, StartRead(id, n, k));
      && t.remote == s.remote && t.local == s.local && t.held == s.held && t.inFlight == s.inFlight
      && id in t.fetches && !t.fetches[id].overtaken && Enabled(t, FinishRead(id))
      && (forall other | other in s.fetches :: other in t.fetches && t.fetches[other] == s.fetches[other])
      && var u := Apply(t, FinishRead(id));
         && k in u.local[n] && u.local[n][k] == s.remote[k] && u.remote == s.remote
         && u.local == s.local[n := s.local[n][k := s.remote[k]]] && u.fetches == s.fetches
  {
  }

  /** A value computed on a miss is then the shared one and the node's own copy, and nothing else changes. */
  lemma ComputedIsShared(s: State, n: Node, k: Key, v: Value, m: Node, j: Key)
    requires Enabled(s, Compute(n, k, v)) && m in s.local
    ensures var t := Apply(s, Compute(n, k, v));
      && k !in s.remote && k !in s.local[n]
      && k in t.remote && t.remote[k] == v && k in t.local[n] && t.local[n][k] == v
      && (j != k ==> (j in t.remote <==> j in s.remote) && (j in s.remote ==> t.remote[j] == s.remote[j]))
      && (m != n ==> t.local[m] == s.local[m])
      && t.held == s.held && t.inFlight == s.inFlight && t.fetches == s.fetches
  {
  }

  // ----- Coherence -----

  predicate Current(s: State, k: Key, v: Value) {
    k in s.remote && s.remote[k] == v
  }

  /** An invalidation of this key is on its way to the node, or still with a writer. */
  ghost predicate Pending(s: State, n: Node, k: Key) {
    (exists w :: w in s.held && k in s.held[w]) || (exists m :: m in s.inFlight && m.to == n && k in m.keys)
  }

  /** A local copy, or a fetched value not yet overtaken, that is not the shared value has an invalidation pending. */
  ghost predicate Coherent(s: State) {
    && (forall n, k | n in s.local && k in s.local[n] :: Current(s, k, s.local[n][k]) || Pending(s, n, k))
    && (forall id | id in s.fetches && !s.fetches[id].overtaken ::
          Current(s, s.fetches[id].key, s.fetches[id].value) || Pending(s, s.fetches[id].node, s.fetches[id].key))
    && (forall id | id in s.fetches :: s.fetches[id].node in s.local)
    && (forall m | m in s.inFlight :: m.to in s.local)
  }

  /**
   * Every other copy of the key, and every fetched value not yet overtaken, is this value already
   * or has an invalidation pending.
   */
  ghost predicate KnownElsewhere(s: State, n: Node, k: Key, v: Value) {
    && (forall m | m in s.local && m != n && k in s.local[m] :: s.local[m][k] == v || Pending(s, m, k))
    && (forall id | id in s.fetches && !s.fetches[id].overtaken && s.fetches[id].key == k ::
          s.fetches[id].value == v || Pending(s, s.fetches[id].node, k))
  }

  /** What two kinds of step must find to leave the caches coherent; the others need nothing. */
  ghost predicate Harmless(s: State, step: Step) {
    match step
    case SetUnpublished(n, k, v) => KnownElsewhere(s, n, k, v)
    case FinishRead(id) =>
      id in s.fetches ==>
        Current(s, s.fetches[id].key, s.fetches[id].value) || Pending(s, s.fetches[id].node, s.fetches[id].key)
    case _ => true
  }

  lemma PendingAfterWrite(s: State, step: Step, n: Node, k: Key)
    requires (step.SetData? || step.DelData?) && Enabled(s, step)
    ensures Pending(s, n, k) || k == step.key ==> Pending(Apply(s, step), n, k)
  {
    var s' := Apply(s, step);
    if k == step.key {
      assert step.writer in s'.held && k in s'.held[step.writer];
    } else if w :| w in s.held && k in s.held[w] {
      assert w in s'.held && k in s'.held[w];
    }
  }

  lemma PendingAfterPublish(s: State, w: Writer, n: Node, k: Key)
    requires Enabled(s, Publish(w)) && n in s.local
    ensures Pending(s, n, k) ==> Pending(Apply(s, Publish(w)), n, k)
  {
    var s' := Apply(s, Publish(w));
    if m :| m in s.inFlight && m.to == n && k in m.keys {
      assert m in s'.inFlight;
    } else if k in s.held[w] {
      assert Message(n, s.held[w]) in s'.inFlight;
    } else if v :| v in s.held && k in s.held[v] {
      assert v in s'.held && s'.held[v] == s.held[v];
    }
  }

  lemma PendingAfterDeliver(s: State, m: Message, n: Node, k: Key)
    requires Enabled(s, Deliver(m))
    ensures Pending(s, n, k) && !(m.to == n && k in m.keys) ==> Pending(Apply(s, Deliver(m)), n, k)
  {
    var s' := Apply(s, Deliver(m));
    if w :| w in s.held && k in s.held[w] {
      assert w in s'.held && k in s'.held[w];
    } else if o :| o in s.inFlight && o.to == n && k in o.keys {
      assert o != m ==> o in s'.inFlight;
    }
  }

  lemma PendingSame(s: State, s': State, n: Node, k: Key)
    requires s'.held == s.held && s'.inFlight == s.inFlight
    ensures Pending(s, n, k) <==> Pending(s', n, k)
  {
  }

  lemma WriteKeepsCoherence(s: State, step: Step)
    requires (step.SetData? || step.DelData?) && Enabled(s, step) && Coherent(s)
    ensures Coherent(Apply(s, step))
  {
    forall n, k {
      PendingAfterWrite(s, step, n, k);
    }
  }

  lemma PublishKeepsCoherence(s: State, w: Writer)
    requires Enabled(s, Publish(w)) && Coherent(s)
    ensures Coherent(Apply(s, Publish(w)))
  {
    forall n, k | n in s.local {
      PendingAfterPublish(s, w, n, k);
    }
  }

  lemma DeliverKeepsCoherence(s: State, m: Message)
    requires Enabled(s, Deliver(m)) && Coherent(s)
    ensures Coherent(Apply(s, Deliver(m)))
  {
    var s' := Apply(s, Deliver(m));
    forall n, k {
      PendingAfterDeliver(s, m, n, k);
    }
    forall n, k | n in s'.local && k in s'.local[n]
      ensures Current(s', k, s'.local[n][k]) || Pending(s', n, k)
    {
      assert n in s.local && k in s.local[n] && s.local[n][k] == s'.local[n][k];
      assert Current(s, k, s.local[n][k]) || Pending(s, n, k);
    }
  }

  lemma FreshReadKeepsCoherence(s: State, id: nat)
    requires Coherent(s) && Enabled(s, FinishRead(id)) && Harmless(s, FinishRead(id))
    ensures Coherent(Apply(s, FinishRead(id)))
  {
    var f, t := s.fetches[id], Apply(s, FinishRead(id));
    forall n, k {
      PendingSame(s, t, n, k);
    }
    forall n, k | n in t.local && k in t.local[n]
      ensures Current(t, k, t.local[n][k]) || Pending(t, n, k)
    {
      if n != f.node || k != f.key {
        assert t.local[n][k] == s.local[n][k];
      }
    }
  }

  /** A read that stores its value keeps coherence exactly when the value is current or an invalidation is pending. */
  lemma FinishReadExactly(s: State, id: nat)
    requires Coherent(s) && Enabled(s, FinishRead(id))
    ensures Coherent(Apply(s, FinishRead(id))) <==> Harmless(s, FinishRead(id))
  {
    var f, t := s.fetches[id], Apply(s, FinishRead(id));
    if Harmless(s, FinishRead(id)) {
      FreshReadKeepsCoherence(s, id);
    } else {
      PendingSame(s, t, f.node, f.key);
      assert t.local[f.node][f.key] == f.value;
    }
  }

  lemma KnownSetKeepsCoherence(s: State, n: Node, k: Key, v: Value)
    requires Coherent(s) && Enabled(s, SetUnpublished(n, k, v)) && KnownElsewhere(s, n, k, v)
    ensures Coherent(Apply(s, SetUnpublished(n, k, v)))
  {
    var t := Apply(s, SetUnpublished(n, k, v));
    forall m, j {
      PendingSame(s, t, m, j);
    }
    forall m, j | m in t.local && j in t.local[m]
      ensures Current(t, j, t.local[m][j]) || Pending(t, m, j)
    {
      if m != n || j != k {
        assert t.local[m][j] == s.local[m][j];
      }
    }
  }

  lemma CoherentSetIsKnown(s: State, n: Node, k: Key, v: Value)
    requires Enabled(s, SetUnpublished(n, k, v)) && Coherent(Apply(s, SetUnpublished(n, k, v)))
    ensures KnownElsewhere(s, n, k, v)
  {
    var t := Apply(s, SetUnpublished(n, k, v));
    forall m, j {
      PendingSame(s, t, m, j);
    }
    forall m | m in s.local && m != n && k in s.local[m]
      ensures s.local[m][k] == v || Pending(s, m, k)
    {
      assert t.local[m][k] == s.local[m][k];
    }
  }

  /**
   * A set whose key is not published keeps coherence exactly when its value is known elsewhere
   * already, or soon dropped.
   */
  lemma SetUnpublishedExactly(s: State, n: Node, k: Key, v: Value)
    requires Coherent(s) && Enabled(s, SetUnpublished(n, k, v))
    ensures Coherent(Apply(s, SetUnpublished(n, k, v))) <==> KnownElsewhere(s, n, k, v)
  {
    if KnownElsewhere(s, n, k, v) {
      KnownSetKeepsCoherence(s, n, k, v);
    } else if Coherent(Apply(s, SetUnpublished(n, k, v))) {
      CoherentSetIsKnown(s, n, k, v);
    }
  }

  lemma StartReadKeepsCoherence(s: State, id: nat, n: Node, k: Key)
    requires Enabled(s, StartRead(id, n, k)) && Coherent(s)
    ensures Coherent(Apply(s, StartRead(id, n, k)))
  {
    var t := Apply(s, StartRead(id, n, k));
    forall m, j {
      PendingSame(s, t, m, j);
    }
    assert t.local == s.local && t.remote == s.remote;
  }

  lemma ComputeKeepsCoherence(s: State, n: Node, k: Key, v: Value)
    requires Enabled(s, Compute(n, k, v)) && Coherent(s)
    ensures Coherent(Apply(s, Compute(n, k, v)))
  {
    var t := Apply(s, Compute(n, k, v));
    forall m, j {
      PendingSame(s, t, m, j);
    }
    forall m, j | m in t.local && j in t.local[m]
      ensures Current(t, j, t.local[m][j]) || Pending(t, m, j)
    {
      if m != n || j != k {
        assert t.local[m][j] == s.local[m][j];
      }
    }
  }

  /** One step keeps coherence exactly when it is harmless where it is taken. */
  lemma StepKeepsCoherence(s: State, step: Step)
    requires Enabled(s, step) && Coherent(s)
    ensures Coherent(Apply(s, step)) <==> Harmless(s, step)
  {
    match step
    case SetData(_, _, _, _) => WriteKeepsCoherence(s, step);
    case SetUnpublished(n, k, v) => SetUnpublishedExactly(s, n, k, v);
    case DelData(_, _, _) => WriteKeepsCoherence(s, step);
    case Publish(w) => PublishKeepsCoherence(s, w);
    case Deliver(m) => DeliverKeepsCoherence(s, m);
    case FinishRead(id) => FinishReadExactly(s, id);
    case StartRead(id, n, k) => StartReadKeepsCoherence(s, id, n, k);
    case Compute(n, k, v) => ComputeKeepsCoherence(s, n, k, v);
  }

  // ----- Runs -----

  predicate Initial(s: State) {
    && (forall n | n in s.local :: s.local[n] == map[])
    && s.held == map[] && s.inFlight == multiset{} && s.fetches == map[]
  }

  /** The state a run leads to, if every step is enabled where it is taken. */
  ghost predicate Reaches(s: State, steps: seq<Step>, t: State)
    decreases |steps|
  {
    if steps == [] then s == t
    else Enabled(s, steps[0]) && Reaches(Apply(s, steps[0]), steps[1..], t)
  }

  ghost predicate HarmlessRun(s: State, steps: seq<Step>)
    decreases |steps|
  {
    steps == [] || (Enabled(s, steps[0]) && Harmless(s, steps[0]) && HarmlessRun(Apply(s, steps[0]), steps[1..]))
  }

  /** Every state on the way is coherent. */
  ghost predicate CoherentThroughout(s: State, steps: seq<Step>)
    decreases |steps|
  {
    && Coherent(s)
    && (steps != [] ==> Enabled(s, steps[0]) && CoherentThroughout(Apply(s, steps[0]), steps[1..]))
  }

  /** A run, of writers that publish and writers that do not, stays coherent exactly when all its steps are harmless. */
  lemma {:induction false} RunKeepsCoherence(s: State, steps: seq<Step>, t: State)
    requires Coherent(s) && Reaches(s, steps, t)
    ensures CoherentThroughout(s, steps) <==> HarmlessRun(s, steps)
    ensures HarmlessRun(s, steps) ==> Coherent(t)
    decreases |steps|
  {
    if steps != [] {
      StepKeepsCoherence(s, steps[0]);
      if Harmless(s, steps[0]) {
        RunKeepsCoherence(Apply(s, steps[0]), steps[1..], t);
      }
    }
  }

  /**
   * Every writer remembers its keys, and no read stores a value whose key was invalidated on its
   * node after it was fetched.
   */
  predicate Orderly(s: State, step: Step) {
    && !step.SetUnpublished?
    && (step.FinishRead? && step.id in s.fetches ==> !s.fetches[step.id].overtaken)
  }

  ghost predicate OrderlyRun(s: State, steps: seq<Step>)
    decreases |steps|
  {
    steps == [] || (Enabled(s, steps[0]) && Orderly(s, steps[0]) && OrderlyRun(Apply(s, steps[0]), steps[1..]))
  }

  lemma {:induction false} OrderlyIsHarmless(s: State, steps: seq<Step>)
    requires Coherent(s) && OrderlyRun(s, steps)
    ensures HarmlessRun(s, steps)
    decreases |steps|
  {
    if steps != [] {
      StepKeepsCoherence(s, steps[0]);
      OrderlyIsHarmless(Apply(s, steps[0]), steps[1..]);
    }
  }

  predicate Quiet(s: State) {
    s.held == map[] && s.inFlight == multiset{}
  }

  predicate Agree(s: State) {
    forall n, k | n in s.local && k in s.local[n] :: Current(s, k, s.local[n][k])
  }

  /**
   * In every harmless run, a stale copy is one whose invalidation is still pending; none is stale
   * once all are delivered.
   */
  lemma StaleCopiesArePending(s: State, steps: seq<Step>, t: State)
    requires Initial(s) && Reaches(s, steps, t) && HarmlessRun(s, steps)
    ensures forall n, k | n in t.local && k in t.local[n] :: Current(t, k, t.local[n][k]) || Pending(t, n, k)
    ensures Quiet(t) ==> Agree(t)
  {
    RunKeepsCoherence(s, steps, t);
  }

  /** Reads in progress still have the values they fetched. */
  predicate KeepsFetched(s: State, t: State) {
    forall id | id in s.fetches ::
      id in t.fetches && t.fetches[id].(overtaken := s.fetches[id].overtaken) == s.fetches[id]
  }

  lemma PublishToDrain(s: State, w: Writer)
    requires Coherent(s) && w in s.held
    ensures var t := Apply(s, Publish(w));
      Coherent(t) && |t.held| < |s.held| && t.remote == s.remote && t.local.Keys == s.local.Keys && KeepsFetched(s, t)
  {
    StepKeepsCoherence(s, Publish(w));
    assert (s.held - {w}).Keys == s.held.Keys - {w};
  }

  lemma DeliverToDrain(s: State, m: Message)
    requires Coherent(s) && m in s.inFlight
    ensures Enabled(s, Deliver(m))
    ensures var t := Apply(s, Deliver(m));
      && Coherent(t) && t.held == s.held && |t.inFlight| < |s.inFlight|
      && t.remote == s.remote && t.local.Keys == s.local.Keys && KeepsFetched(s, t)
  {
    StepKeepsCoherence(s, Deliver(m));
  }

  lemma ReachesCons(s: State, step: Step, steps: seq<Step>, t: State)
    requires Enabled(s, step) && Reaches(Apply(s, step), steps, t)
    ensures Reaches(s, [step] + steps, t)
  {
    assert ([step] + steps)[1..] == steps;
  }

  /** From any coherent state, publishing what is held and delivering what is in flight makes all copies agree. */
  lemma {:induction false} Drain(s: State) returns (steps: seq<Step>, t: State)
    requires Coherent(s)
    ensures Reaches(s, steps, t) && Quiet(t) && Agree(t) && t.remote == s.remote
    ensures t.local.Keys == s.local.Keys && KeepsFetched(s, t)
    decreases |s.held|, |s.inFlight|
  {
    if s.held != map[] {
      var w :| w in s.held;
      PublishToDrain(s, w);
      var rest;
      rest, t := Drain(Apply(s, Publish(w)));
      ReachesCons(s, Publish(w), rest, t);
      steps := [Publish(w)] + rest;
    } else if s.inFlight != multiset{} {
      var m :| m in s.inFlight;
      DeliverToDrain(s, m);
      var rest;
      rest, t := Drain(Apply(s, Deliver(m)));
      ReachesCons(s, Deliver(m), rest, t);
      steps := [Deliver(m)] + rest;
    } else {
      steps, t := [], s;
    }
  }

  lemma {:induction false} ReachesSnoc(s: State, steps: seq<Step>, t: State, step: Step)
    requires Reaches(s, steps, t) && Enabled(t, step)
    ensures Reaches(s, steps + [step], Apply(t, step))
    decreases |steps|
  {
    if steps == [] {
      assert [step][1..] == [];
    } else {
      ReachesSnoc(Apply(s, steps[0]), steps[1..], t, step);
      assert (steps + [step])[1..] == steps[1..] + [step];
    }
  }

  /**
   * Without the condition on reads the claim fails from every quiet state in which a read can
   * start: let a writer set another value and let all its messages arrive before the read
   * stores what it fetched, and the old value stays with nothing pending.
   */
  lemma OvertakenReadStaysStale(s: State, id: nat, n: Node, k: Key, w: Writer, v: Value)
    returns (steps: seq<Step>, t: State)
    requires Coherent(s) && Quiet(s) && Enabled(s, StartRead(id, n, k)) && v != s.remote[k]
    ensures Reaches(s, steps, t) && Quiet(t) && !Agree(t)
  {
    var s1 := Apply(s, StartRead(id, n, k));
    StepKeepsCoherence(s, StartRead(id, n, k));
    var s2 := Apply(s1, SetData(w, n, k, v));
    StepKeepsCoherence(s1, SetData(w, n, k, v));
    var drain, s3 := Drain(s2);
    t := Apply(s3, FinishRead(id));
    ReachesSnoc(s2, drain, s3, FinishRead(id));
    var rest := drain + [FinishRead(id)];
    ReachesCons(s1, SetData(w, n, k, v), rest, t);
    ReachesCons(s, StartRead(id, n, k), [SetData(w, n, k, v)] + rest, t);
    steps := [StartRead(id, n, k)] + ([SetData(w, n, k, v)] + rest);
    assert t.local[n][k] == s.remote[k] && t.remote[k] == v;
  }

  /**
   * The writer that forgets its key: from every quiet state in which another node holds a
   * different value, its one step leads to a quiet state in which that copy is stale.
   */
  lemma UnpublishedSetStaysStale(s: State, n: Node, m: Node, k: Key, v: Value) returns (steps: seq<Step>, t: State)
    requires Coherent(s) && Quiet(s) && n in s.local && m in s.local && m != n
    requires k in s.local[m] && s.local[m][k] != v
    ensures Reaches(s, steps, t) && Quiet(t) && !Agree(t)
    ensures Stuck(t, m, k) <==> !FetchedFor(s, m, k)
  {
    var step := SetUnpublished(n, k, v);
    t := Apply(s, step);
    ReachesCons(s, step, [], t);
    steps := [step] + [];
    assert t.local[m][k] == s.local[m][k] && t.remote[k] == v;
  }

  predicate FetchedFor(s: State, n: Node, k: Key) {
    exists id :: id in s.fetches && s.fetches[id].node == n && s.fetches[id].key == k
  }

  /** A stale copy that no message and no read in progress will replace. */
  ghost predicate Stuck(s: State, n: Node, k: Key) {
    && n in s.local && k in s.local[n] && !Current(s, k, s.local[n][k])
    && !Pending(s, n, k) && !FetchedFor(s, n, k) && k in s.remote
  }

  predicate Writes(step: Step, k: Key) {
    (step.SetData? || step.SetUnpublished? || step.DelData?) && step.key == k
  }

  /** Such a copy stays for as long as no one writes the key again, whatever else happens. */
  lemma {:induction false} StuckUntilWritten(s: State, steps: seq<Step>, t: State, n: Node, k: Key)
    requires Stuck(s, n, k) && Reaches(s, steps, t)
    requires forall step | step in steps :: !Writes(step, k)
    ensures Stuck(t, n, k) && t.local[n][k] == s.local[n][k]
    decreases |steps|
  {
    if steps != [] {
      StuckStep(s, steps[0], n, k);
      StuckUntilWritten(Apply(s, steps[0]), steps[1..], t, n, k);
    }
  }

  lemma StuckStep(s: State, step: Step, n: Node, k: Key)
    requires Stuck(s, n, k) && Enabled(s, step) && !Writes(step, k)
    ensures Stuck(Apply(s, step), n, k) && Apply(s, step).local[n][k] == s.local[n][k]
  {
    var t := Apply(s, step);
    PendingBefore(s, step, n, k);
    match step
    case Deliver(m) =>
      assert k !in m.keys || m.to != n;
    case FinishRead(id) =>
      assert s.fetches[id].node != n || s.fetches[id].key != k;
    case _ =>
  }

  lemma PendingBefore(s: State, step: Step, n: Node, k: Key)
    requires Enabled(s, step) && !Writes(step, k)
    ensures Pending(Apply(s, step), n, k) ==> Pending(s, n, k)
  {
    var t := Apply(s, step);
    if w :| w in t.held && k in t.held[w] {
      assert w in s.held && k in s.held[w];
    } else if m :| m in t.inFlight && m.to == n && k in m.keys {
      if step.Publish? {
        assert m in s.inFlight || k in s.held[step.writer];
      } else {
        assert m in s.inFlight;
      }
    }
  }

  // ----- The objects that take the steps -----

  /** The cache as one node sees it: the shared entries and its own copies. */
  class CacheService {
    var remote: Entries
    var local: Entries

    constructor (remote: Entries, local: Entries)
      ensures this.remote == remote && this.local == local
    {
      this.remote, this.local := remote, local;
    }
  }

  class GenericSetterService {
    const cachingService: CacheService

    constructor (service: CacheService)
      ensures cachingService == service
    {
      cachingService := service;
    }

    method SetData(cacheKey: Key, value: Value) returns (key: Key)
      modifies cachingService
      ensures cachingService.remote == old(cachingService.remote)[cacheKey := value]
      ensures cachingService.local == old(cachingService.local)[cacheKey := value]
      ensures key == cacheKey
    {
      cachingService.remote := cachingService.remote[cacheKey := value];
      cachingService.local := cachingService.local[cacheKey := value];
      key := cacheKey;
    }

    /** A deletion that fails is logged and fails for the caller, who then has no key to publish. */
    method DelData(cacheKey: Key, failure: Option<string>) returns (key: Result<Key, string>)
      modifies cachingService
      ensures failure.None? ==>
                && cachingService.remote == old(cachingService.remote) - {cacheKey}
                && cachingService.local == old(cachingService.local) - {cacheKey}
                && key == Ok(cacheKey)
      ensures failure.Some? ==>
                && cachingService.remote == old(cachingService.remote)
                && cachingService.local == old(cachingService.local)
                && key == Err(failure.value)
    {
      if failure.Some? {
        return Err(failure.value);
      }
      cachingService.remote := cachingService.remote - {cacheKey};
      cachingService.local := cachingService.local - {cacheKey};
      key := Ok(cacheKey);
    }
  }

  class CacheController {
    const cachingService: CacheService

    constructor (service: CacheService)
      ensures cachingService == service
    {
      cachingService := service;
    }

    method DeleteCacheKey(keys: seq<Key>)
      modifies cachingService`local
      ensures cachingService.local == Invalidate(old(cachingService.local), keys)
    {
      for i := 0 to |keys|
        invariant cachingService.local == Invalidate(old(cachingService.local), keys[..i])
      {
        cachingService.local := cachingService.local - {keys[i]};
      }
      assert keys[..|keys|] == keys;
    }
  }
}
