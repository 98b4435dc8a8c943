/**
 * CreateRelations called from several threads: the lock is taken twice per
 * emission, once to count and index it and once to append the result.
 */
module Concurrent {
  import opened Wrappers
  import opened Present
  import opened Relations
  import Dedup

  /** Where a thread is with the emission it works on. */
  datatype Phase =
    | Idle
    | Checking(e: Emission)   // holds the lock, before the index is looked up
    | Counted(e: Emission)    // holds the lock, the counter is raised
    | Between(e: Emission)    // indexed, the lock is free again
    | Appending(e: Emission)  // holds the lock a second time

  /** `asked` records the calls in the order they entered; the program does not have it. */
  datatype State = State(counter: nat, unique: set<string>, results: Log, lock: Option<nat>,
                         threads: seq<Phase>, asked: seq<Emission>)

  predicate ValidCall(c: Context, e: Emission) {
    e.rel < |c.relations| && HasIds(e.entry, c.relations[e.rel])
  }

  predicate Init(s: State) {
    && s.counter == 0 && s.unique == {} && s.results == [] && s.lock == None && s.asked == []
    && forall i | 0 <= i < |s.threads| :: s.threads[i] == Idle
  }

  // ---------- the steps of thread i ----------

  predicate Enter(c: Context, s: State, t: State, i: nat, e: Emission) {
    && i < |s.threads| && s.threads[i].Idle? && s.lock.None? && ValidCall(c, e)
    && t == s.(lock := Some(i), threads := s.threads[i := Checking(e)], asked := s.asked + [e])
  }

  predicate Known(c: Context, s: State, e: Emission) {
    && ValidCall(c, e) && LogOf(c, s.results)
    && KeyOf(c, e) in s.unique
    && ResultsContain(ResultsOf(c, s.results), e.entry, c.relations[e.rel], c.text)
  }

  /** The scan panics and ends the program: in such a state nothing goes on. */
  predicate Crashes(c: Context, s: State, e: Emission) {
    && ValidCall(c, e) && LogOf(c, s.results)
    && KeyOf(c, e) in s.unique
    && ScanPanics(ResultsOf(c, s.results), e.entry, c.relations[e.rel], c.text)
  }

  predicate Skip(c: Context, s: State, t: State, i: nat) {
    && i < |s.threads| && s.threads[i].Checking? && !Crashes(c, s, s.threads[i].e) && Known(c, s, s.threads[i].e)
    && t == s.(lock := None, threads := s.threads[i := Idle])
  }

  predicate Count(c: Context, s: State, t: State, i: nat) {
    && i < |s.threads| && s.threads[i].Checking? && !Crashes(c, s, s.threads[i].e) && !Known(c, s, s.threads[i].e)
    && t == s.(counter := s.counter + 1, threads := s.threads[i := Counted(s.threads[i].e)])
  }

  predicate Index(c: Context, s: State, t: State, i: nat) {
    && i < |s.threads| && s.threads[i].Counted? && s.threads[i].e.rel < |c.relations|
    && t == s.(unique := s.unique + {KeyOf(c, s.threads[i].e)}, lock := None,
               threads := s.threads[i := Between(s.threads[i].e)])
  }

  predicate Reenter(c: Context, s: State, t: State, i: nat) {
    && i < |s.threads| && s.threads[i].Between? && s.lock.None?
    && t == s.(lock := Some(i), threads := s.threads[i := Appending(s.threads[i].e)])
  }

  predicate Append(c: Context, s: State, t: State, i: nat) {
    && i < |s.threads| && s.threads[i].Appending?
    && t == s.(results := s.results + [s.threads[i].e], lock := None, threads := s.threads[i := Idle])
  }

  ghost predicate Step(c: Context, s: State, t: State, i: nat) {
    || (exists e :: Enter(c, s, t, i, e))
    || Skip(c, s, t, i) || Count(c, s, t, i) || Index(c, s, t, i) || Reenter(c, s, t, i) || Append(c, s, t, i)
  }

  ghost predicate Next(c: Context, s: State, t: State) {
    exists i: nat :: Step(c, s, t, i)
  }

  ghost predicate Run(c: Context, states: seq<State>) {
    && |states| > 0 && Init(states[0])
    && forall k | 0 <= k < |states| - 1 :: Next(c, states[k], states[k + 1])
  }

  // ---------- the invariant ----------

  predicate Holding(p: Phase) {
    p.Checking? || p.Counted? || p.Appending?
  }

  /** Counted but not yet among the results. */
  predicate Pending(p: Phase) {
    p.Counted? || p.Between? || p.Appending?
  }

  predicate Indexed(p: Phase) {
    p.Between? || p.Appending?
  }

  function PendingCount(ps: seq<Phase>): nat {
    if ps == [] then 0 else PendingCount(ps[..|ps| - 1]) + if Pending(ps[|ps| - 1]) then 1 else 0
  }

  predicate Calls(c: Context, s: State) {
    && LogOf(c, s.results)
    && forall i | 0 <= i < |s.threads| :: !s.threads[i].Idle? ==> ValidCall(c, s.threads[i].e)
  }

  /** The lock is held by the one thread that is inside a critical section. */
  ghost predicate Exclusive(s: State) {
    forall i: nat :: s.lock == Some(i) <==> i < |s.threads| && Holding(s.threads[i])
  }

  predicate Balanced(s: State) {
    s.counter == |s.results| + PendingCount(s.threads)
  }

  /** The index holds the keys of the results and of what is on its way there. */
  predicate IndexExact(c: Context, s: State)
    requires Calls(c, s)
  {
    s.unique == KeysOf(c, s.results) + InFlightKeys(c, s.threads)
  }

  ghost predicate Inv(c: Context, s: State) {
    Calls(c, s) && Exclusive(s) && Balanced(s) && IndexExact(c, s)
  }

  function InFlightKeys(c: Context, ps: seq<Phase>): set<string> {
    set i | 0 <= i < |ps| && Indexed(ps[i]) && ps[i].e.rel < |c.relations| :: KeyOf(c, ps[i].e)
  }

  lemma {:induction false} PendingUpdate(ps: seq<Phase>, i: nat, p: Phase)
    requires i < |ps|
    ensures PendingCount(ps[i := p]) + (if Pending(ps[i]) then 1 else 0)
         == PendingCount(ps) + (if Pending(p) then 1 else 0)
  {
    var front := ps[..|ps| - 1];
    if i == |ps| - 1 {
      assert ps[i := p][..|ps| - 1] == front;
    } else {
      PendingUpdate(front, i, p);
      assert ps[i := p][..|ps| - 1] == front[i := p];
    }
  }

  lemma {:induction false} NonePending(ps: seq<Phase>)
    requires forall i | 0 <= i < |ps| :: !Pending(ps[i])
    ensures PendingCount(ps) == 0
  {
    if ps != [] {
      NonePending(ps[..|ps| - 1]);
    }
  }

  lemma StepKeepsCalls(c: Context, s: State, t: State, i: nat)
    requires Calls(c, s) && Step(c, s, t, i)
    ensures Calls(c, t)
  {
    if Append(c, s, t, i) {
      LogGrows(c, s.results, s.threads[i].e);
    }
  }

  lemma StepKeepsLock(c: Context, s: State, t: State, i: nat)
    requires Exclusive(s) && Step(c, s, t, i)
    ensures Exclusive(t)
  {
    hide Known, Crashes, ValidCall;
    assert i < |s.threads| && t.threads == s.threads[i := t.threads[i]];
    assert Holding(s.threads[i]) ==> s.lock == Some(i);
  }

  lemma StepKeepsBalance(c: Context, s: State, t: State, i: nat)
    requires Balanced(s) && Step(c, s, t, i)
    ensures Balanced(t)
  {
    PendingUpdate(s.threads, i, t.threads[i]);
  }

  function OtherKeys(c: Context, ps: seq<Phase>, i: nat): set<string> {
    set j | 0 <= j < |ps| && j != i && Indexed(ps[j]) && ps[j].e.rel < |c.relations| :: KeyOf(c, ps[j].e)
  }

  lemma InFlightUpdate(c: Context, ps: seq<Phase>, i: nat, q: Phase)
    requires i < |ps| && (Indexed(q) ==> q.e.rel < |c.relations|)
    ensures InFlightKeys(c, ps[i := q]) == OtherKeys(c, ps, i) + if Indexed(q) then {KeyOf(c, q.e)} else {}
  {
    var qs := ps[i := q];
    assert qs[i] == q && forall j | 0 <= j < |ps| && j != i :: qs[j] == ps[j];
  }

  lemma StepKeepsIndex(c: Context, s: State, t: State, i: nat)
    requires Calls(c, s) && IndexExact(c, s) && Step(c, s, t, i) && Calls(c, t)
    ensures IndexExact(c, t)
  {
    hide KeyOf, Known, Crashes, ResultOf, HasIds;
    var p, q := s.threads[i], t.threads[i];
    assert t.threads == s.threads[i := q];
    InFlightUpdate(c, s.threads, i, p);
    InFlightUpdate(c, s.threads, i, q);
    assert s.threads == s.threads[i := p];
    if Append(c, s, t, i) {
      LogGrows(c, s.results, p.e);
    }
  }

  lemma StepKeeps(c: Context, s: State, t: State, i: nat)
    requires Inv(c, s) && Step(c, s, t, i)
    ensures Inv(c, t)
  {
    StepKeepsCalls(c, s, t, i);
    StepKeepsLock(c, s, t, i);
    StepKeepsBalance(c, s, t, i);
    StepKeepsIndex(c, s, t, i);
  }

  /** In every state of every run the books balance. */
  lemma {:induction false} RunKeeps(c: Context, states: seq<State>, k: nat)
    requires Run(c, states) && k < |states|
    ensures Inv(c, states[k])
  {
    if k == 0 {
      NonePending(states[0].threads);
    } else {
      RunKeeps(c, states, k - 1);
      assert Next(c, states[k - 1], states[k - 1 + 1]);
      var i: nat :| Step(c, states[k - 1], states[k], i);
      StepKeeps(c, states[k - 1], states[k], i);
    }
  }

  /** When no call is under way the counter and the index describe the results exactly. */
  lemma ExactAtRest(c: Context, states: seq<State>, k: nat)
    requires Run(c, states) && k < |states|
    requires forall i | 0 <= i < |states[k].threads| :: states[k].threads[i].Idle?
    ensures LogOf(c, states[k].results)
    ensures states[k].counter == |states[k].results|
    ensures states[k].unique == KeysOf(c, states[k].results)
  {
    RunKeeps(c, states, k);
    NonePending(states[k].threads);
    assert InFlightKeys(c, states[k].threads) == {};
  }

  /** No two threads are ever inside the critical sections together. */
  lemma MutualExclusion(c: Context, states: seq<State>, k: nat, i: nat, j: nat)
    requires Run(c, states) && k < |states|
    requires i < |states[k].threads| && j < |states[k].threads|
    requires Holding(states[k].threads[i]) && Holding(states[k].threads[j])
    ensures i == j
  {
    RunKeeps(c, states, k);
    assert states[k].lock == Some(i);
    assert states[k].lock == Some(j);
  }

  // ---------- one thread: the sequential program ----------

  /** The calls made one after the other; without identifiers a call does nothing. */
  function Sequential(c: Context, asked: seq<Emission>): (r: Log)
    ensures LogOf(c, r)
  {
    if asked == [] then []
    else
      var before, e := Sequential(c, asked[..|asked| - 1]), asked[|asked| - 1];
      if ValidCall(c, e) then AfterRelation(c, before, e.rel, e.entry) else before
  }

  ghost predicate Refines(c: Context, s: State)
    requires |s.threads| == 1
  {
    && (forall i | 0 <= i < |s.asked| :: ValidCall(c, s.asked[i]))
    && var p := s.threads[0];
       if p.Idle? then s.results == Sequential(c, s.asked)
       else
         && s.asked != [] && s.asked[|s.asked| - 1] == p.e
         && s.results == Sequential(c, s.asked[..|s.asked| - 1])
         && (!p.Checking? ==> Emits(c, s.results, p.e.rel, p.e.entry))
  }

  lemma StepRefines(c: Context, s: State, t: State)
    requires |s.threads| == 1 && Inv(c, s) && Refines(c, s) && Step(c, s, t, 0)
    ensures |t.threads| == 1 && Refines(c, t)
  {
    hide Crashes, ResultsContain, HasIds, Key, MakeGraph, Exclusive, Balanced;
    if e :| Enter(c, s, t, 0, e) {
      assert t.asked[..|t.asked| - 1] == s.asked;
    } else {
      InFlightUpdate(c, s.threads, 0, s.threads[0]);
      assert s.threads == s.threads[0 := s.threads[0]] && OtherKeys(c, s.threads, 0) == {};
      assert s.threads[0].Checking? ==> s.unique == KeysOf(c, s.results);
      assert s.threads[0].Checking? ==>
          (Known(c, s, s.threads[0].e) <==> !Emits(c, s.results, s.threads[0].e.rel, s.threads[0].e.entry));
    }
  }

  /** A single thread computes what the sequential program does, in every run. */
  lemma {:induction false} SingleThreadSequential(c: Context, states: seq<State>, k: nat)
    requires Run(c, states) && k < |states| && |states[0].threads| == 1
    ensures |states[k].threads| == 1 && Refines(c, states[k])
  {
    hide Refines, Inv, Step;
    if k == 0 {
      InitRefines(c, states[0]);
    } else {
      SingleThreadSequential(c, states, k - 1);
      RunKeeps(c, states, k - 1);
      assert Next(c, states[k - 1], states[k - 1 + 1]);
      var i: nat :| Step(c, states[k - 1], states[k], i);
      StepOfThread(c, states[k - 1], states[k], i);
      StepRefines(c, states[k - 1], states[k]);
    }
  }

  lemma InitRefines(c: Context, s: State)
    requires Init(s) && |s.threads| == 1
    ensures Refines(c, s)
  {
  }

  lemma StepOfThread(c: Context, s: State, t: State, i: nat)
    requires Step(c, s, t, i)
    ensures i < |s.threads|
  {
  }

  // ---------- one thread: no duplicates ----------

  function EntriesOf(asked: seq<Emission>): seq<Entry> {
    seq(|asked|, i requires 0 <= i < |asked| => asked[i].entry)
  }

  lemma {:induction false} SequentialIsEntries(c: Context, asked: seq<Emission>)
    requires |c.relations| == 1 && forall i | 0 <= i < |asked| :: ValidCall(c, asked[i])
    ensures Sequential(c, asked) == AfterEntries(c, EntriesOf(asked))
  {
    if asked != [] {
      var front, e := asked[..|asked| - 1], asked[|asked| - 1];
      assert ValidCall(c, e);
      SequentialLast(c, asked);
      EntriesLast(c, asked);
      hide AfterRelation, AfterEntry, HasIds, Sequential, AfterEntries, EntriesOf;
      SequentialIsEntries(c, front);
      Dedup.OnlyRelation(c, AfterEntries(c, EntriesOf(front)), e.entry);
    }
  }

  lemma SequentialLast(c: Context, asked: seq<Emission>)
    requires |c.relations| == 1 && asked != [] && ValidCall(c, asked[|asked| - 1])
    ensures Sequential(c, asked) ==
            AfterRelation(c, Sequential(c, asked[..|asked| - 1]), 0, asked[|asked| - 1].entry)
  {
    hide AfterRelation, HasIds, LogOf;
  }

  lemma EntriesLast(c: Context, asked: seq<Emission>)
    requires asked != []
    ensures AfterEntries(c, EntriesOf(asked)) ==
            AfterEntry(c, AfterEntries(c, EntriesOf(asked[..|asked| - 1])), asked[|asked| - 1].entry)
  {
    var es := EntriesOf(asked);
    assert es[..|es| - 1] == EntriesOf(asked[..|asked| - 1]);
    hide AfterEntry;
  }

  /**
   * Whenever the only thread rests, the results are the first occurrences of
   * what it was called with: with one relation, nothing comes twice in any run.
   */
  lemma SingleThreadDistinct(c: Context, states: seq<State>, k: nat)
    requires Run(c, states) && k < |states| && |states[0].threads| == 1 && AtRest(states[k])
    requires |c.relations| == 1 && Dedup.Simple(c.relations[0])
    requires forall i | 0 <= i < |states[k].asked| :: Dedup.CompleteFor(states[k].asked[i].entry, c.relations[0])
    ensures LogOf(c, states[k].results)
    ensures var results := ResultsOf(c, states[k].results);
            && results == Dedup.FirstOccurrences(Dedup.Images(c, EntriesOf(states[k].asked)))
            && forall i, j | 0 <= i < j < |results| :: results[i] != results[j]
  {
    SingleThreadSequential(c, states, k);
    var asked := states[k].asked;
    SequentialIsEntries(c, asked);
    hide Dedup.CompleteFor, Dedup.Simple, Run;
    Dedup.ResultsAreFirstOccurrences(c, EntriesOf(asked));
    Dedup.FirstOccurrencesDistinct(Dedup.Images(c, EntriesOf(asked)));
  }

  // ---------- several threads: the same relation twice ----------

  predicate AtRest(s: State) {
    forall i | 0 <= i < |s.threads| :: s.threads[i].Idle?
  }

  /** n threads, of which the first two do something. */
  function Threads(a: Phase, b: Phase, n: nat): seq<Phase>
    requires n >= 2
  {
    [a, b] + seq(n - 2, _ => Idle)
  }

  lemma ThreadsUpdate(a: Phase, b: Phase, p: Phase, n: nat)
    requires n >= 2
    ensures Threads(a, b, n)[0 := p] == Threads(p, b, n)
    ensures Threads(a, b, n)[1 := p] == Threads(a, p, n)
  {
  }

  /** Both threads pass the check before either appends. */
  function Overlap(c: Context, e: Emission, n: nat): seq<State>
    requires ValidCall(c, e) && n >= 2
  {
    var k := KeyOf(c, e);
    [State(0, {}, [], None, Threads(Idle, Idle, n), []),
     State(0, {}, [], Some(0), Threads(Checking(e), Idle, n), [e]),
     State(1, {}, [], Some(0), Threads(Counted(e), Idle, n), [e]),
     State(1, {k}, [], None, Threads(Between(e), Idle, n), [e]),
     State(1, {k}, [], Some(1), Threads(Between(e), Checking(e), n), [e, e]),
     State(2, {k}, [], Some(1), Threads(Between(e), Counted(e), n), [e, e]),
     State(2, {k}, [], None, Threads(Between(e), Between(e), n), [e, e]),
     State(2, {k}, [], Some(0), Threads(Appending(e), Between(e), n), [e, e]),
     State(2, {k}, [e], None, Threads(Idle, Between(e), n), [e, e]),
     State(2, {k}, [e], Some(1), Threads(Idle, Appending(e), n), [e, e]),
     State(2, {k}, [e, e], None, Threads(Idle, Idle, n), [e, e])]
  }

  lemma OverlapChecks(c: Context, e: Emission, n: nat)
    requires ValidCall(c, e) && n >= 2
    ensures forall k | 0 <= k < 6 :: Next(c, Overlap(c, e, n)[k], Overlap(c, e, n)[k + 1])
  {
    var s := Overlap(c, e, n);
    ThreadsUpdate(Idle, Idle, Checking(e), n);
    ThreadsUpdate(Checking(e), Idle, Counted(e), n);
    ThreadsUpdate(Counted(e), Idle, Between(e), n);
    ThreadsUpdate(Between(e), Idle, Checking(e), n);
    ThreadsUpdate(Between(e), Checking(e), Counted(e), n);
    ThreadsUpdate(Between(e), Counted(e), Between(e), n);
    hide Threads, ScanPanics, ResultsContain;
    assert Enter(c, s[0], s[1], 0, e) && Step(c, s[0], s[1], 0);
    assert Count(c, s[1], s[2], 0) && Step(c, s[1], s[2], 0);
    assert Index(c, s[2], s[3], 0) && Step(c, s[2], s[3], 0);
    assert Enter(c, s[3], s[4], 1, e) && Step(c, s[3], s[4], 1);
    assert Count(c, s[4], s[5], 1) && Step(c, s[4], s[5], 1);
    assert Index(c, s[5], s[6], 1) && Step(c, s[5], s[6], 1);
  }

  lemma OverlapAppends(c: Context, e: Emission, n: nat)
    requires ValidCall(c, e) && n >= 2
    ensures forall k | 6 <= k < 10 :: Next(c, Overlap(c, e, n)[k], Overlap(c, e, n)[k + 1])
  {
    var s := Overlap(c, e, n);
    ThreadsUpdate(Between(e), Between(e), Appending(e), n);
    ThreadsUpdate(Appending(e), Between(e), Idle, n);
    ThreadsUpdate(Idle, Between(e), Appending(e), n);
    ThreadsUpdate(Idle, Appending(e), Idle, n);
    hide Threads;
    assert Reenter(c, s[6], s[7], 0) && Step(c, s[6], s[7], 0);
    assert Append(c, s[7], s[8], 0) && Step(c, s[7], s[8], 0);
    assert Reenter(c, s[8], s[9], 1) && Step(c, s[8], s[9], 1);
    assert Append(c, s[9], s[10], 1) && Step(c, s[9], s[10], 1);
  }

  /** With two threads or more the same relation can be emitted twice. */
  lemma ThreadsDuplicate(c: Context, e: Emission, n: nat) returns (states: seq<State>)
    requires ValidCall(c, e) && n >= 2
    ensures Run(c, states) && |states[0].threads| == n
    ensures var s := states[|states| - 1];
            AtRest(s) && s.asked == [e, e] && s.results == [e, e]
  {
    states := Overlap(c, e, n);
    OverlapChecks(c, e, n);
    OverlapAppends(c, e, n);
  }

  ghost predicate LikeSequential(c: Context, s: State) {
    (forall i | 0 <= i < |s.asked| :: ValidCall(c, s.asked[i])) && s.results == Sequential(c, s.asked)
  }

  /** Every run of n threads leaves what one caller after the other would have left. */
  ghost predicate AlwaysSequential(c: Context, n: nat) {
    forall states: seq<State> | Run(c, states) && |states[0].threads| == n && AtRest(states[|states| - 1]) ::
      LikeSequential(c, states[|states| - 1])
  }

  lemma StepsNeedThreads(c: Context, states: seq<State>)
    requires Run(c, states)
    ensures |states| > 1 ==> |states[0].threads| > 0
  {
    if |states| > 1 {
      assert Next(c, states[0], states[0 + 1]);
      var i: nat :| Step(c, states[0], states[1], i);
      assert i < |states[0].threads|;
    }
  }

  /** A call with all attributes present, repeated in sequence, is skipped. */
  lemma RepeatedCallSkipped(c: Context, e: Emission)
    requires ValidCall(c, e) && |c.relations| == 1 && Dedup.Simple(c.relations[0])
    requires Dedup.CompleteFor(e.entry, c.relations[0])
    ensures Sequential(c, [e, e]) == [e]
  {
    assert [e, e][..1] == [e] && [e][..0] == [];
    assert Sequential(c, [e]) == [e] by {
      assert Sequential(c, []) == [] && Emits(c, [], e.rel, e.entry);
    }
    Dedup.EmitsIffNew(c, [e], e.entry);
    assert ResultsOf(c, [e])[0] == MakeGraph(c.source, c.relations[0], e.entry, c.text);
  }

  /** If a call repeated in sequence is skipped, all runs of n threads are like sequential ones iff n is at most one. */
  lemma AlwaysSequentialExactly(c: Context, e: Emission, n: nat)
    requires ValidCall(c, e) && Sequential(c, [e, e]) == [e]
    ensures AlwaysSequential(c, n) <==> n <= 1
  {
    if n <= 1 {
      forall states: seq<State> | Run(c, states) && |states[0].threads| == n && AtRest(states[|states| - 1])
        ensures LikeSequential(c, states[|states| - 1])
      {
        if n == 0 {
          StepsNeedThreads(c, states);
        } else {
          SingleThreadSequential(c, states, |states| - 1);
        }
      }
    } else {
      var states := ThreadsDuplicate(c, e, n);
      hide Run;
      assert !LikeSequential(c, states[|states| - 1]);
    }
  }

  /** A thread at rest can take the free lock with any entry that has both identifiers. */
  lemma AnyCallEnters(c: Context, s: State, i: nat, e: Emission) returns (t: State)
    requires i < |s.threads| && s.threads[i] == Idle && s.lock == None && e.rel < |c.relations|
    requires var r := c.relations[e.rel];
             && r.from.id in e.entry && e.entry[r.from.id] != Null && e.entry[r.from.id] != Str("")
             && r.to.id in e.entry && e.entry[r.to.id] != Null && e.entry[r.to.id] != Str("")
    ensures Next(c, s, t) && t.asked == s.asked + [e] && t.lock == Some(i)
  {
    t := s.(lock := Some(i), threads := s.threads[i := Checking(e)], asked := s.asked + [e]);
    assert Enter(c, s, t, i, e) && Step(c, s, t, i);
  }
}
