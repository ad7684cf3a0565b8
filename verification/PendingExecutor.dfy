/**
 * Single-flight execution: calls with the same key share one run of the executor. A call
 * joins the run in the table or starts one; every caller is answered some time after its run
 * settles; the caller that started the run removes the table entry just before its answer.
 * Arrivals, settlements and answers interleave freely.
 */
module PendingExecutor {
  import opened Wrappers

  type Key = string
  type CallId = nat
  type RunId = nat

  datatype Outcome = Resolved(value: string) | Rejected(error: string)

  datatype Run = Run(key: Key, outcome: Option<Outcome>)

  datatype Waiting = Waiting(key: Key, run: RunId, originator: bool)

  datatype State = State(
    dictionary: map<Key, RunId>,
    runs: map<RunId, Run>,
    waiting: map<CallId, Waiting>,
    joined: map<CallId, RunId>,
    answers: map<CallId, Outcome>)

  /** `started` is the run that the call starts if none of its key is in the table. */
  datatype Step =
    | Execute(call: CallId, key: Key, started: RunId)
    | Settle(run: RunId, outcome: Outcome)
    | Answer(call: CallId)

  /** The run a new call gets: the one in the table, else a new one. */
  function RunFor(s: State, key: Key, started: RunId): RunId {
    if key in s.dictionary then s.dictionary[key] else started
  }

  predicate Enabled(s: State, step: Step) {
    match step
    case Execute(c, k, r) => c !in s.joined && (k in s.dictionary || r !in s.runs)
    case Settle(r, _) => r in s.runs && s.runs[r].outcome.None?
    case Answer(c) => c in s.waiting && s.waiting[c].run in s.runs && s.runs[s.waiting[c].run].outcome.Some?
  }

  function Apply(s: State, step: Step): State
    requires Enabled(s, step)
  {
    match step
    case Execute(c, k, started) =>
      var r := RunFor(s, k, started);
      if k in s.dictionary then
        s.(waiting := s.waiting[c := Waiting(k, r, false)], joined := s.joined[c := r])
      else
        s.(dictionary := s.dictionary[k := r], runs := s.runs[r := Run(k, None)],
           waiting := s.waiting[c := Waiting(k, r, true)], joined := s.joined[c := r])
    case Settle(r, o) =>
      s.(runs := s.runs[r := s.runs[r].(outcome := Some(o))])
    case Answer(c) =>
      var w := s.waiting[c];
      s.(dictionary := if w.originator then s.dictionary - {w.key} else s.dictionary,
         waiting := s.waiting - {c}, answers := s.answers[c := s.runs[w.run].outcome.value])
  }

  // ----- The invariant -----

  /** A waiting call knows its run; the one that started it still has its own entry in the table. */
  ghost predicate WaitingOk(s: State, c: CallId)
    requires c in s.waiting
  {
    var w := s.waiting[c];
    && w.run in s.runs && s.runs[w.run].key == w.key
    && c in s.joined && s.joined[c] == w.run && c !in s.answers
    && (w.originator ==> w.key in s.dictionary && s.dictionary[w.key] == w.run)
  }

  ghost predicate HasOriginator(s: State, r: RunId) {
    exists c :: c in s.waiting && s.waiting[c].originator && s.waiting[c].run == r
  }

  /** Table entries are runs of their key, and every unsettled run is in the table. */
  ghost predicate TableOk(s: State) {
    && (forall k | k in s.dictionary :: s.dictionary[k] in s.runs && s.runs[s.dictionary[k]].key == k)
    && (forall r | r in s.runs && s.runs[r].outcome.None? ::
          s.runs[r].key in s.dictionary && s.dictionary[s.runs[r].key] == r)
    && (forall k | k in s.dictionary :: HasOriginator(s, s.dictionary[k]))
  }

  ghost predicate CallsOk(s: State) {
    && (forall c | c in s.waiting :: WaitingOk(s, c))
    && (forall c, d | c in s.waiting && d in s.waiting && c != d && s.waiting[c].run == s.waiting[d].run ::
          !(s.waiting[c].originator && s.waiting[d].originator))
  }

  ghost predicate AnswersOk(s: State) {
    && (forall c | c in s.joined :: s.joined[c] in s.runs && (c in s.waiting || c in s.answers))
    && (forall c | c in s.answers :: c in s.joined && s.runs[s.joined[c]].outcome == Some(s.answers[c]))
  }

  ghost predicate Inv(s: State) {
    TableOk(s) && CallsOk(s) && AnswersOk(s)
  }

  lemma JoinKeepsTable(s: State, c: CallId, k: Key, r: RunId)
    requires Inv(s) && Enabled(s, Execute(c, k, r)) && k in s.dictionary
    ensures TableOk(Apply(s, Execute(c, k, r)))
  {
    assert c !in s.waiting;
    OriginatorsStay(s, Apply(s, Execute(c, k, r)));
  }

  lemma JoinKeepsCalls(s: State, c: CallId, k: Key, r: RunId)
    requires Inv(s) && Enabled(s, Execute(c, k, r)) && k in s.dictionary
    ensures CallsOk(Apply(s, Execute(c, k, r)))
  {
    var t := Apply(s, Execute(c, k, r));
    assert c !in s.waiting && c !in s.answers;
    forall d | d in t.waiting
      ensures WaitingOk(t, d)
    {
      assert d != c ==> WaitingOk(s, d);
    }
  }

  lemma JoinKeepsAnswers(s: State, c: CallId, k: Key, r: RunId)
    requires Inv(s) && Enabled(s, Execute(c, k, r)) && k in s.dictionary
    ensures AnswersOk(Apply(s, Execute(c, k, r)))
  {
    assert c !in s.answers;
  }

  lemma JoinKeepsInv(s: State, c: CallId, k: Key, r: RunId)
    requires Inv(s) && Enabled(s, Execute(c, k, r)) && k in s.dictionary
    ensures Inv(Apply(s, Execute(c, k, r)))
  {
    JoinKeepsTable(s, c, k, r);
    JoinKeepsCalls(s, c, k, r);
    JoinKeepsAnswers(s, c, k, r);
  }

  lemma StartKeepsTable(s: State, c: CallId, k: Key, r: RunId)
    requires Inv(s) && Enabled(s, Execute(c, k, r)) && k !in s.dictionary
    ensures TableOk(Apply(s, Execute(c, k, r)))
  {
    var t := Apply(s, Execute(c, k, r));
    assert c !in s.waiting;
    OriginatorsStay(s, t);
    assert c in t.waiting && t.waiting[c] == Waiting(k, r, true);
  }

  lemma StartKeepsCalls(s: State, c: CallId, k: Key, r: RunId)
    requires Inv(s) && Enabled(s, Execute(c, k, r)) && k !in s.dictionary
    ensures CallsOk(Apply(s, Execute(c, k, r)))
  {
    var t := Apply(s, Execute(c, k, r));
    assert c !in s.waiting && c !in s.answers;
    forall d | d in t.waiting
      ensures WaitingOk(t, d)
      ensures d != c ==> t.waiting[d].run != r
    {
      assert d != c ==> WaitingOk(s, d);
    }
  }

  lemma StartKeepsInv(s: State, c: CallId, k: Key, r: RunId)
    requires Inv(s) && Enabled(s, Execute(c, k, r)) && k !in s.dictionary
    ensures Inv(Apply(s, Execute(c, k, r)))
  {
    StartKeepsTable(s, c, k, r);
    StartKeepsCalls(s, c, k, r);
  }

  lemma OriginatorsStay(s: State, t: State)
    requires Inv(s) && forall c | c in s.waiting :: c in t.waiting && t.waiting[c] == s.waiting[c]
    ensures forall k | k in s.dictionary :: HasOriginator(t, s.dictionary[k])
  {
    forall k | k in s.dictionary
      ensures HasOriginator(t, s.dictionary[k])
    {
      assert HasOriginator(s, s.dictionary[k]);
      var c :| c in s.waiting && s.waiting[c].originator && s.waiting[c].run == s.dictionary[k];
      assert c in t.waiting;
    }
  }

  lemma SettleKeepsInv(s: State, r: RunId, o: Outcome)
    requires Inv(s) && Enabled(s, Settle(r, o))
    ensures Inv(Apply(s, Settle(r, o)))
  {
    var t := Apply(s, Settle(r, o));
    forall j | j in t.dictionary
      ensures HasOriginator(t, t.dictionary[j])
    {
      assert HasOriginator(s, s.dictionary[j]);
    }
    forall d | d in t.waiting
      ensures WaitingOk(t, d)
    {
      assert WaitingOk(s, d);
    }
  }

  lemma AnswerKeepsInv(s: State, c: CallId)
    requires Inv(s) && Enabled(s, Answer(c))
    ensures Inv(Apply(s, Answer(c)))
  {
    var t, w := Apply(s, Answer(c)), s.waiting[c];
    assert WaitingOk(s, c);
    forall j | j in t.dictionary
      ensures HasOriginator(t, t.dictionary[j])
    {
      var d :| d in s.waiting && s.waiting[d].originator && s.waiting[d].run == s.dictionary[j];
      assert WaitingOk(s, d);
      assert d != c;
      assert d in t.waiting && t.waiting[d] == s.waiting[d];
    }
    forall d | d in t.waiting
      ensures WaitingOk(t, d)
    {
      assert WaitingOk(s, d);
    }
  }

  lemma StepKeepsInv(s: State, step: Step)
    requires Inv(s) && Enabled(s, step)
    ensures Inv(Apply(s, step))
  {
    match step
    case Execute(c, k, r) =>
      if k in s.dictionary {
        JoinKeepsInv(s, c, k, r);
      } else {
        StartKeepsInv(s, c, k, r);
      }
    case Settle(r, o) => SettleKeepsInv(s, r, o);
    case Answer(c) => AnswerKeepsInv(s, c);
  }

  // ----- Runs of the protocol -----

  const INITIAL: State := State(map[], map[], map[], map[], map[])

  ghost predicate Reaches(s: State, steps: seq<Step>, t: State)
    decreases |steps|
  {
    if steps == [] then s == t
    else Enabled(s, steps[0]) && Reaches(Apply(s, steps[0]), steps[1..], t)
  }

  lemma EntryNeedsCaller(s: State, k: Key)
    requires Inv(s) && k in s.dictionary
    ensures s.waiting != map[]
  {
    var c :| c in s.waiting && s.waiting[c].originator && s.waiting[c].run == s.dictionary[k];
  }

  /** At most one run of a key is unsettled, and an idle executor has an empty table. */
  lemma {:induction false} SingleFlight(s: State, steps: seq<Step>, t: State)
    requires Inv(s) && Reaches(s, steps, t)
    ensures Inv(t)
    ensures forall q, r | q in t.runs && r in t.runs && t.runs[q].outcome.None? && t.runs[r].outcome.None? &&
                          t.runs[q].key == t.runs[r].key :: q == r
    ensures t.waiting == map[] ==> t.dictionary == map[]
    decreases |steps|
  {
    if steps != [] {
      StepKeepsInv(s, steps[0]);
      SingleFlight(Apply(s, steps[0]), steps[1..], t);
    } else if t.dictionary != map[] {
      var k :| k in t.dictionary;
      EntryNeedsCaller(t, k);
    }
  }

  lemma InitialInv()
    ensures Inv(INITIAL)
  {
  }

  /** In every run of a new executor, at most one run of a key is unsettled and an idle executor has an empty table. */
  lemma SingleFlightFromStart(steps: seq<Step>, t: State)
    requires Reaches(INITIAL, steps, t)
    ensures Inv(t)
    ensures forall q, r | q in t.runs && r in t.runs && t.runs[q].outcome.None? && t.runs[r].outcome.None? &&
                          t.runs[q].key == t.runs[r].key :: q == r
    ensures t.waiting == map[] ==> t.dictionary == map[]
  {
    InitialInv();
    SingleFlight(INITIAL, steps, t);
  }

  /** A call that has joined a run stays with it, and a settled run keeps its outcome. */
  lemma {:induction false} JoinedForever(s: State, steps: seq<Step>, t: State, c: CallId)
    requires Inv(s) && Reaches(s, steps, t) && c in s.joined
    ensures c in t.joined && t.joined[c] == s.joined[c]
    decreases |steps|
  {
    if steps != [] {
      StepKeepsInv(s, steps[0]);
      JoinedForever(Apply(s, steps[0]), steps[1..], t, c);
    }
  }

  /**
   * Every caller gets the outcome of the run that was in the table when it arrived, or of the
   * run it started then, no matter what happens in between.
   */
  lemma AnswerIsOfJoinedRun(s: State, c: CallId, k: Key, r: RunId, steps: seq<Step>, t: State)
    requires Inv(s) && Enabled(s, Execute(c, k, r)) && Reaches(Apply(s, Execute(c, k, r)), steps, t)
    ensures c in t.waiting || c in t.answers
    ensures RunFor(s, k, r) in t.runs
    ensures c in t.answers ==> t.runs[RunFor(s, k, r)].outcome == Some(t.answers[c])
    ensures k !in s.dictionary ==> RunFor(s, k, r) !in s.runs
  {
    StepKeepsInv(s, Execute(c, k, r));
    JoinedForever(Apply(s, Execute(c, k, r)), steps, t, c);
    SingleFlight(Apply(s, Execute(c, k, r)), steps, t);
  }

  /**
   * A new call is always taken, an unsettled run can settle either way, and a waiting call is
   * answered once its run settled.
   */
  lemma NobodyIsStuck(s: State, c: CallId, k: Key, r: RunId, o: Outcome)
    requires Inv(s)
    ensures c !in s.joined && r !in s.runs ==> Enabled(s, Execute(c, k, r))
    ensures r in s.runs && s.runs[r].outcome.None? ==> Enabled(s, Settle(r, o))
    ensures c in s.waiting ==>
              && s.waiting[c].run in s.runs
              && (s.runs[s.waiting[c].run].outcome.Some? ==> Enabled(s, Answer(c)))
  {
    if c in s.waiting {
      assert WaitingOk(s, c);
    }
  }

  /** A call joins the run in the table and starts none, or starts one of its own and enters it. */
  lemma JoinsOrStarts(s: State, c: CallId, k: Key, r: RunId)
    requires Enabled(s, Execute(c, k, r))
    ensures var t := Apply(s, Execute(c, k, r));
      && c in t.joined && c in t.waiting && t.answers == s.answers
      && (k in s.dictionary ==>
            t.joined[c] == s.dictionary[k] && t.runs == s.runs && t.dictionary == s.dictionary)
      && (k !in s.dictionary ==>
            && t.joined[c] == r && r !in s.runs && r in t.runs && t.runs[r] == Run(k, None)
            && k in t.dictionary && t.dictionary[k] == r
            && (forall q | q in s.runs :: q in t.runs && t.runs[q] == s.runs[q]))
  {
  }

  /** A run keeps the outcome it settled with. */
  lemma {:induction false} OutcomeStays(s: State, steps: seq<Step>, t: State, r: RunId, o: Outcome)
    requires Inv(s) && Reaches(s, steps, t) && r in s.runs && s.runs[r].outcome == Some(o)
    ensures r in t.runs && t.runs[r].outcome == Some(o)
    decreases |steps|
  {
    if steps != [] {
      StepKeepsInv(s, steps[0]);
      OutcomeStays(Apply(s, steps[0]), steps[1..], t, r, o);
    }
  }

  /** Every answer is what the executor's run settled with, for as many callers as joined it. */
  lemma AnswerIsTheOutcome(s: State, r: RunId, o: Outcome, steps: seq<Step>, t: State, c: CallId)
    requires Inv(s) && Enabled(s, Settle(r, o)) && Reaches(Apply(s, Settle(r, o)), steps, t)
    requires c in t.answers && c in t.joined && t.joined[c] == r
    ensures t.answers[c] == o
  {
    var u := Apply(s, Settle(r, o));
    StepKeepsInv(s, Settle(r, o));
    OutcomeStays(u, steps, t, r, o);
    SingleFlight(u, steps, t);
  }

  /** What an answer removes from the table is the entry of the run answered, and nothing if the caller only joined. */
  lemma AnswerRemovesOwnEntry(s: State, c: CallId)
    requires Inv(s) && Enabled(s, Answer(c))
    ensures var w := s.waiting[c];
      Apply(s, Answer(c)).dictionary ==
      if w.originator then map k | k in s.dictionary && s.dictionary[k] != w.run :: s.dictionary[k] else s.dictionary
  {
    assert WaitingOk(s, c);
  }

  // ----- The class -----

  class Executor {
    var dictionary: map<Key, RunId>
    ghost var runs: map<RunId, Run>
    ghost var waiting: map<CallId, Waiting>
    ghost var joined: map<CallId, RunId>
    ghost var answers: map<CallId, Outcome>

    ghost function View(): State
      reads this
    {
      State(dictionary, runs, waiting, joined, answers)
    }

    constructor ()
      ensures View() == INITIAL && Inv(View())
    {
      dictionary, runs, waiting, joined, answers := map[], map[], map[], map[], map[];
    }

    /** Up to the first wait: look in the table, else start the run and enter it. */
    method Execute(ghost call: CallId, key: Key, started: RunId) returns (pending: RunId, originator: bool)
      requires Inv(View()) && Enabled(View(), Step.Execute(call, key, started))
      modifies this
      ensures View() == Apply(old(View()), Step.Execute(call, key, started)) && Inv(View())
      ensures pending == joined[call] && originator == (key !in old(dictionary))
    {
      StepKeepsInv(View(), Step.Execute(call, key, started));
      if key in dictionary {
        pending, originator := dictionary[key], false;
      } else {
        pending, originator := started, true;
        runs := runs[pending := Run(key, None)];
        dictionary := dictionary[key := pending];
      }
      waiting := waiting[call := Waiting(key, pending, originator)];
      joined := joined[call := pending];
    }

    /** After the wait: return the outcome, and on the way out of a started run remove its entry. */
    method Resume(ghost call: CallId, key: Key, originator: bool, outcome: Outcome) returns (answer: Outcome)
      requires Inv(View()) && Enabled(View(), Answer(call))
      requires waiting[call] == Waiting(key, waiting[call].run, originator)
      requires runs[waiting[call].run].outcome == Some(outcome)
      modifies this
      ensures View() == Apply(old(View()), Answer(call)) && Inv(View())
      ensures answer == outcome
    {
      StepKeepsInv(View(), Answer(call));
      answer := outcome;
      if originator {
        dictionary := dictionary - {key};
      }
      waiting, answers := waiting - {call}, answers[call := outcome];
    }
  }
}
