/**
 * Searching several sources at once: every search runs in its own goroutine and
 * appends what it found to one shared response under a lock.
 */
module Gather {
  import opened Wrappers
  import opened Relations
  import opened SearchLoop

  datatype Outcome = Failed(message: string) | Found(block: seq<Graph>, stats: Option<Report>)

  /**
   * `showAll` is true for a global search and when limited results are to be
   * shown. `refused` are the errors met before the wait, in order: of sources
   * that could not parse the statement, of the cache, of an unknown source.
   */
  datatype Request = Request(outcomes: seq<Outcome>, showAll: bool, refused: seq<string>)

  datatype Phase =
    | Searching
    | Reported              // statistics written, the lock not yet taken
    | Appending(copied: nat)  // holds the lock; so many relations are copied
    | Finished

  /** `order` lists the searches whose blocks are in, in the order they got the lock. */
  datatype State = State(lock: Option<nat>, relations: seq<Graph>, stats: Option<Report>, error: Option<string>,
                         tasks: seq<Phase>, order: seq<nat>)

  predicate Keeps(r: Request, i: nat) {
    i < |r.outcomes| && r.outcomes[i].Found? && (r.showAll || r.outcomes[i].stats.None?)
  }

  function Block(r: Request, i: nat): seq<Graph> {
    if Keeps(r, i) then r.outcomes[i].block else []
  }

  predicate Init(r: Request, s: State) {
    && s.lock.None? && s.relations == [] && s.stats.None? && s.error.None? && s.order == []
    && |s.tasks| == |r.outcomes| && forall i | 0 <= i < |s.tasks| :: s.tasks[i] == Searching
  }

  // ---------- the steps of search i ----------

  predicate Fail(r: Request, s: State, t: State, i: nat) {
    && i < |s.tasks| == |r.outcomes| && s.tasks[i].Searching? && r.outcomes[i].Failed?
    && t == s.(error := if s.error.None? then Some(r.outcomes[i].message) else s.error,
               tasks := s.tasks[i := Finished])
  }

  /** The statistics are written without the lock: the last writer wins. */
  predicate ReportStats(r: Request, s: State, t: State, i: nat) {
    && i < |s.tasks| == |r.outcomes| && s.tasks[i].Searching? && r.outcomes[i].Found?
    && t == s.(stats := if r.outcomes[i].stats.Some? then r.outcomes[i].stats else s.stats,
               tasks := s.tasks[i := Reported])
  }

  predicate Lock(r: Request, s: State, t: State, i: nat) {
    && i < |s.tasks| == |r.outcomes| && s.tasks[i].Reported? && s.lock.None?
    && t == s.(lock := Some(i), tasks := s.tasks[i := Appending(0)])
  }

  predicate CopyOne(r: Request, s: State, t: State, i: nat) {
    && i < |s.tasks| == |r.outcomes| && s.tasks[i].Appending? && s.tasks[i].copied < |Block(r, i)|
    && t == s.(relations := s.relations + [Block(r, i)[s.tasks[i].copied]],
               tasks := s.tasks[i := Appending(s.tasks[i].copied + 1)])
  }

  predicate Unlock(r: Request, s: State, t: State, i: nat) {
    && i < |s.tasks| == |r.outcomes| && s.tasks[i].Appending? && s.tasks[i].copied >= |Block(r, i)|
    && t == s.(lock := None, tasks := s.tasks[i := Finished],
               order := if Keeps(r, i) then s.order + [i] else s.order)
  }

  predicate Step(r: Request, s: State, t: State, i: nat) {
    Fail(r, s, t, i) || ReportStats(r, s, t, i) || Lock(r, s, t, i) || CopyOne(r, s, t, i) || Unlock(r, s, t, i)
  }

  ghost predicate Next(r: Request, s: State, t: State) {
    exists i: nat :: Step(r, s, t, i)
  }

  ghost predicate Run(r: Request, states: seq<State>) {
    && |states| > 0 && Init(r, states[0])
    && forall k | 0 <= k < |states| - 1 :: Next(r, states[k], states[k + 1])
  }

  predicate Done(s: State) {
    forall i | 0 <= i < |s.tasks| :: s.tasks[i].Finished?
  }

  // ---------- the invariant ----------

  /** The blocks of the listed searches, one after the other. */
  function Joined(r: Request, order: seq<nat>): seq<Graph> {
    if order == [] then [] else Joined(r, order[..|order| - 1]) + Block(r, order[|order| - 1])
  }

  /** What the search that holds the lock has copied so far. */
  function Partial(r: Request, s: State): seq<Graph> {
    if s.lock.Some? && s.lock.value < |s.tasks| && s.tasks[s.lock.value].Appending?
       && s.tasks[s.lock.value].copied <= |Block(r, s.lock.value)|
    then Block(r, s.lock.value)[..s.tasks[s.lock.value].copied] else []
  }

  ghost predicate Exclusive(s: State) {
    forall i: nat :: s.lock == Some(i) <==> i < |s.tasks| && s.tasks[i].Appending?
  }

  predicate Progressed(r: Request, s: State) {
    && |s.tasks| == |r.outcomes|
    && forall i | 0 <= i < |s.tasks| ::
         && (s.tasks[i].Reported? || s.tasks[i].Appending? ==> r.outcomes[i].Found?)
         && (s.tasks[i].Appending? ==> s.tasks[i].copied <= |Block(r, i)|)
  }

  predicate Whole(r: Request, s: State) {
    s.relations == Joined(r, s.order) + Partial(r, s)
  }

  predicate OrderExact(r: Request, s: State) {
    && (forall j | 0 <= j < |s.order| ::
          s.order[j] < |s.tasks| && s.tasks[s.order[j]].Finished? && Keeps(r, s.order[j]))
    && (forall i | 0 <= i < |s.tasks| && s.tasks[i].Finished? && Keeps(r, i) :: i in s.order)
    && (forall j, k | 0 <= j < k < |s.order| :: s.order[j] != s.order[k])
  }

  ghost predicate Inv(r: Request, s: State) {
    Exclusive(s) && Progressed(r, s) && Whole(r, s) && OrderExact(r, s)
  }

  lemma StepKeepsLock(r: Request, s: State, t: State, i: nat)
    requires Exclusive(s) && Step(r, s, t, i)
    ensures Exclusive(t)
  {
    assert s.tasks[i].Appending? ==> s.lock == Some(i);
    assert t.tasks == s.tasks[i := t.tasks[i]];
  }

  lemma StepKeepsWhole(r: Request, s: State, t: State, i: nat)
    requires Exclusive(s) && Progressed(r, s) && Whole(r, s) && Step(r, s, t, i)
    ensures Progressed(r, t) && Whole(r, t)
  {
    assert s.tasks[i].Appending? ==> s.lock == Some(i);
    assert s.lock.Some? ==> s.lock.value < |s.tasks| && s.tasks[s.lock.value].Appending?;
    hide Exclusive;
    StepProgresses(r, s, t, i);
    if CopyOne(r, s, t, i) {
      CopyKeepsWhole(r, s, t, i);
    } else if Unlock(r, s, t, i) {
      UnlockKeepsWhole(r, s, t, i);
    } else {
      hide Keeps, Block;
      assert Partial(r, t) == Partial(r, s);
    }
  }

  lemma StepProgresses(r: Request, s: State, t: State, i: nat)
    requires Progressed(r, s) && Step(r, s, t, i)
    ensures Progressed(r, t)
  {
    hide Block, Keeps;
    assert t.tasks == s.tasks[i := t.tasks[i]];
  }

  lemma CopyKeepsWhole(r: Request, s: State, t: State, i: nat)
    requires Progressed(r, s) && Whole(r, s) && CopyOne(r, s, t, i) && s.lock == Some(i)
    ensures Whole(r, t)
  {
    hide Block, Joined;
    assert Partial(r, t) == Partial(r, s) + [Block(r, i)[s.tasks[i].copied]];
  }

  lemma UnlockKeepsWhole(r: Request, s: State, t: State, i: nat)
    requires Progressed(r, s) && Whole(r, s) && Unlock(r, s, t, i) && s.lock == Some(i)
    ensures Whole(r, t)
  {
    AllCopied(r, s, i);
    NotCopying(r, t);
    NotKept(r, i);
    hide Partial, Block, Keeps, Joined, Progressed;
    if Keeps(r, i) {
      JoinedLast(r, t.order);
      assert t.order[..|t.order| - 1] == s.order;
    }
  }

  lemma AllCopied(r: Request, s: State, i: nat)
    requires Progressed(r, s) && s.lock == Some(i) && i < |s.tasks| && s.tasks[i].Appending?
    requires s.tasks[i].copied >= |Block(r, i)|
    ensures Partial(r, s) == Block(r, i)
  {
    hide Block, Keeps;
  }

  lemma NotCopying(r: Request, t: State)
    requires t.lock.None?
    ensures Partial(r, t) == [] && forall x: seq<Graph> :: x + Partial(r, t) == x
  {
  }

  lemma NotKept(r: Request, i: nat)
    ensures !Keeps(r, i) ==> Block(r, i) == [] && forall x: seq<Graph> :: x + Block(r, i) == x
  {
  }

  lemma StepKeepsOrder(r: Request, s: State, t: State, i: nat)
    requires OrderExact(r, s) && Step(r, s, t, i)
    ensures OrderExact(r, t)
  {
    assert i < |s.tasks| && !s.tasks[i].Finished?;
    assert forall j | 0 <= j < |s.order| :: s.order[j] != i;
    assert t.tasks == s.tasks[i := t.tasks[i]];
    if Unlock(r, s, t, i) && Keeps(r, i) {
      assert t.order[|s.order|] == i;
      assert forall j | 0 <= j < |s.order| :: t.order[j] == s.order[j];
    }
  }

  /** In every state of every interleaving the response is whole blocks and one prefix. */
  lemma {:induction false} RunKeeps(r: Request, states: seq<State>, k: nat)
    requires Run(r, states) && k < |states|
    ensures Inv(r, states[k])
  {
    if k > 0 {
      RunKeeps(r, states, k - 1);
      assert Next(r, states[k - 1], states[k - 1 + 1]);
      var i: nat :| Step(r, states[k - 1], states[k], i);
      hide Step;
      StepKeepsLock(r, states[k - 1], states[k], i);
      StepKeepsWhole(r, states[k - 1], states[k], i);
      StepKeepsOrder(r, states[k - 1], states[k], i);
    }
  }

  /** `order` lists each of the first n searches that is to be appended, once. */
  predicate Lists(r: Request, order: seq<nat>, n: nat) {
    && (forall j | 0 <= j < |order| :: order[j] < n && Keeps(r, order[j]))
    && (forall i | 0 <= i < n && Keeps(r, i) :: i in order)
    && (forall j, k | 0 <= j < k < |order| :: order[j] != order[k])
  }

  /** After all searches the response is exactly their blocks, whole, in some order. */
  lemma AllCollected(r: Request, states: seq<State>, k: nat)
    requires Run(r, states) && k < |states| && Done(states[k])
    ensures Lists(r, states[k].order, |r.outcomes|)
    ensures states[k].relations == Joined(r, states[k].order)
  {
    RunKeeps(r, states, k);
  }

  // ---------- nothing lost, nothing twice ----------

  /** All relations that are to be appended by the first n searches. */
  function Wanted(r: Request, n: nat): multiset<Graph> {
    if n == 0 then multiset{} else Wanted(r, n - 1) + multiset(Block(r, n - 1))
  }

  function Without(order: seq<nat>, p: nat): seq<nat>
    requires p < |order|
  {
    order[..p] + order[p + 1..]
  }

  lemma AppendedBoth(a: seq<Graph>, c: seq<Graph>, d: seq<Graph>, b: seq<Graph>)
    requires multiset(a) == multiset(c) + multiset(d)
    ensures multiset(a + b) == multiset(c + b) + multiset(d)
  {
    assert multiset(a + b) == multiset(a) + multiset(b);
    assert multiset(c + b) == multiset(c) + multiset(b);
  }

  lemma {:induction false} JoinedWithout(r: Request, order: seq<nat>, p: nat)
    requires p < |order|
    ensures multiset(Joined(r, order)) == multiset(Joined(r, Without(order, p))) + multiset(Block(r, order[p]))
  {
    hide Joined, Block, Without;
    var last := |order| - 1;
    JoinedLast(r, order);
    WithoutFront(order, p);
    if p < last {
      var front := order[..last];
      JoinedWithout(r, front, p);
      JoinedLast(r, Without(order, p));
      AppendedBoth(Joined(r, front), Joined(r, Without(front, p)), Block(r, order[p]), Block(r, order[last]));
    }
  }

  lemma WithoutFront(order: seq<nat>, p: nat)
    requires p < |order|
    ensures var w, front := Without(order, p), order[..|order| - 1];
            if p == |order| - 1 then w == front
            else w != [] && w[..|w| - 1] == Without(front, p) && w[|w| - 1] == order[|order| - 1]
  {
  }

  lemma JoinedLast(r: Request, order: seq<nat>)
    requires order != []
    ensures Joined(r, order) == Joined(r, order[..|order| - 1]) + Block(r, order[|order| - 1])
  {
  }

  lemma WithoutKeeps(order: seq<nat>, p: nat, i: nat)
    requires p < |order| && i in order && i != order[p]
    ensures i in Without(order, p)
  {
    var q :| 0 <= q < |order| && order[q] == i;
    assert Without(order, p)[if q < p then q else q - 1] == i;
  }

  lemma ListsWithoutLast(r: Request, order: seq<nat>, n: nat, p: nat)
    requires n > 0 && Lists(r, order, n) && p < |order| && order[p] == n - 1
    ensures Lists(r, Without(order, p), n - 1)
  {
    var rest := Without(order, p);
    assert forall j | 0 <= j < |rest| :: rest[j] == order[if j < p then j else j + 1];
    forall i | 0 <= i < n - 1 && Keeps(r, i) ensures i in rest {
      WithoutKeeps(order, p, i);
    }
  }

  lemma {:induction false} JoinedIsWanted(r: Request, order: seq<nat>, n: nat)
    requires Lists(r, order, n)
    ensures multiset(Joined(r, order)) == Wanted(r, n)
    decreases n
  {
    hide Lists, Joined, Wanted, Block, Without;
    if n == 0 {
      NothingWanted(r, order);
    } else {
      WantedStep(r, n);
      if Keeps(r, n - 1) {
        var p := PositionOfLast(r, order, n);
        ListsWithoutLast(r, order, n, p);
        JoinedWithout(r, order, p);
        JoinedIsWanted(r, Without(order, p), n - 1);
      } else {
        NotListed(r, order, n);
        JoinedIsWanted(r, order, n - 1);
      }
    }
  }

  lemma NotListed(r: Request, order: seq<nat>, n: nat)
    requires n > 0 && Lists(r, order, n) && !Keeps(r, n - 1)
    ensures Lists(r, order, n - 1)
  {
  }

  lemma FirstListed(r: Request, order: seq<nat>, n: nat)
    requires Lists(r, order, n)
    ensures order == [] || order[0] < n
  {
  }

  lemma NothingWanted(r: Request, order: seq<nat>)
    requires Lists(r, order, 0)
    ensures multiset(Joined(r, order)) == Wanted(r, 0)
  {
    FirstListed(r, order, 0);
    hide Lists, Block;
  }

  lemma WantedStep(r: Request, n: nat)
    requires n > 0
    ensures Wanted(r, n) == Wanted(r, n - 1) + multiset(Block(r, n - 1))
    ensures !Keeps(r, n - 1) ==> Wanted(r, n) == Wanted(r, n - 1)
  {
  }

  lemma PositionOfLast(r: Request, order: seq<nat>, n: nat) returns (p: nat)
    requires n > 0 && Lists(r, order, n) && Keeps(r, n - 1)
    ensures p < |order| && order[p] == n - 1
  {
    p :| 0 <= p < |order| && order[p] == n - 1;
  }

  /** Whatever the interleaving, the same relations arrive, each as often as it was found. */
  lemma NothingLost(r: Request, states: seq<State>, k: nat)
    requires Run(r, states) && k < |states| && Done(states[k])
    ensures multiset(states[k].relations) == Wanted(r, |r.outcomes|)
  {
    AllCollected(r, states, k);
    JoinedIsWanted(r, states[k].order, |r.outcomes|);
  }

  /** What an outcome brings: all that was found, but of a search that hit its limit only if that is to be shown. */
  function Brought(o: Outcome, showAll: bool): multiset<Graph> {
    match o
    case Failed(_) => multiset{}
    case Found(block, None) => multiset(block)
    case Found(block, Some(_)) => if showAll then multiset(block) else multiset{}
  }

  /** What the first n outcomes bring together. */
  function BroughtBy(outcomes: seq<Outcome>, showAll: bool, n: nat): multiset<Graph>
    requires n <= |outcomes|
  {
    if n == 0 then multiset{} else BroughtBy(outcomes, showAll, n - 1) + Brought(outcomes[n - 1], showAll)
  }

  lemma BlockIsBrought(r: Request, i: nat)
    requires i < |r.outcomes|
    ensures multiset(Block(r, i)) == Brought(r.outcomes[i], r.showAll)
  {
  }

  lemma {:induction false} WantedIsBrought(r: Request, n: nat)
    requires n <= |r.outcomes|
    ensures Wanted(r, n) == BroughtBy(r.outcomes, r.showAll, n)
  {
    hide Block, Brought;
    if n > 0 {
      WantedIsBrought(r, n - 1);
      BlockIsBrought(r, n - 1);
    }
  }

  /** After all searches the response is, as a multiset, what the outcomes bring. */
  lemma ResponseExactly(r: Request, states: seq<State>, k: nat)
    requires Run(r, states) && k < |states| && Done(states[k])
    ensures multiset(states[k].relations) == BroughtBy(r.outcomes, r.showAll, |r.outcomes|)
  {
    hide Wanted, BroughtBy, Run, Done;
    NothingLost(r, states, k);
    WantedIsBrought(r, |r.outcomes|);
  }

  // ---------- errors and statistics ----------

  predicate Accounted(r: Request, s: State) {
    && |s.tasks| == |r.outcomes|
    && (s.error.Some? <==> exists i | 0 <= i < |s.tasks| :: s.tasks[i].Finished? && r.outcomes[i].Failed?)
    && (s.error.Some? ==> exists i | 0 <= i < |s.tasks| :: r.outcomes[i] == Failed(s.error.value))
    && (s.stats.Some? <==> exists i | 0 <= i < |s.tasks| ::
          !s.tasks[i].Searching? && r.outcomes[i].Found? && r.outcomes[i].stats.Some?)
    && (s.stats.Some? ==> exists i | 0 <= i < |s.tasks| :: r.outcomes[i].Found? && r.outcomes[i].stats == s.stats)
  }

  lemma StepAccounted(r: Request, s: State, t: State, i: nat)
    requires Accounted(r, s) && Progressed(r, s) && Step(r, s, t, i)
    ensures Accounted(r, t)
  {
    assert t.tasks == s.tasks[i := t.tasks[i]];
    assert forall j | 0 <= j < |s.tasks| && j != i :: t.tasks[j] == s.tasks[j];
    if Fail(r, s, t, i) || ReportStats(r, s, t, i) {
      assert !t.tasks[i].Searching?;
    }
  }

  /** An error is reported iff a search failed, statistics iff some search hit its limit. */
  lemma {:induction false} ErrorsReported(r: Request, states: seq<State>, k: nat)
    requires Run(r, states) && k < |states|
    ensures Accounted(r, states[k])
  {
    if k > 0 {
      ErrorsReported(r, states, k - 1);
      RunKeeps(r, states, k - 1);
      assert Next(r, states[k - 1], states[k - 1 + 1]);
      var i: nat :| Step(r, states[k - 1], states[k], i);
      StepAccounted(r, states[k - 1], states[k], i);
    }
  }

  /** The first error stays: later ones do not replace it. */
  lemma {:induction false} FirstErrorStays(r: Request, states: seq<State>, j: nat, k: nat)
    requires Run(r, states) && j <= k < |states| && states[j].error.Some?
    ensures states[k].error == states[j].error
  {
    if j < k {
      FirstErrorStays(r, states, j, k - 1);
      assert Next(r, states[k - 1], states[k - 1 + 1]);
      var i: nat :| Step(r, states[k - 1], states[k], i);
      hide Block, Keeps;
    }
  }

  /** Statistics are replaced by those of the search that reports last. */
  lemma LastReportShown(r: Request, s: State, t: State, i: nat)
    requires Step(r, s, t, i) && s.tasks[i] == Searching && r.outcomes[i].Found?
    ensures t.stats == if r.outcomes[i].stats != None then r.outcomes[i].stats else s.stats
  {
  }

  /** The error shown in the end: that of the searches, else the last of the earlier ones. */
  function FinalError(r: Request, s: State): Option<string> {
    if s.error.Some? then s.error
    else if r.refused != [] then Some(r.refused[|r.refused| - 1])
    else None
  }

  predicate SomeSearchFailed(r: Request) {
    exists i | 0 <= i < |r.outcomes| :: r.outcomes[i].Failed?
  }

  /** After the wait an error is shown iff something was refused or a search failed, and failed searches come first. */
  lemma FinalErrorShown(r: Request, states: seq<State>, k: nat)
    requires Run(r, states) && k < |states| && Done(states[k])
    ensures FinalError(r, states[k]).Some? <==> r.refused != [] || SomeSearchFailed(r)
    ensures SomeSearchFailed(r) ==> exists i | 0 <= i < |r.outcomes| ::
                                      r.outcomes[i].Failed? && FinalError(r, states[k]) == Some(r.outcomes[i].message)
    ensures !SomeSearchFailed(r) && r.refused != [] ==> FinalError(r, states[k]) == Some(r.refused[|r.refused| - 1])
  {
    ErrorsReported(r, states, k);
    assert forall i | 0 <= i < |states[k].tasks| :: states[k].tasks[i].Finished?;
  }

  // ---------- the wait ends ----------

  function Work(r: Request, i: nat, p: Phase): nat {
    match p
    case Searching => |Block(r, i)| + 3
    case Reported => |Block(r, i)| + 2
    case Appending(k) => if k <= |Block(r, i)| then |Block(r, i)| - k + 1 else 1
    case Finished => 0
  }

  function Remaining(r: Request, tasks: seq<Phase>): nat {
    if tasks == [] then 0 else Remaining(r, tasks[..|tasks| - 1]) + Work(r, |tasks| - 1, tasks[|tasks| - 1])
  }

  lemma {:induction false} RemainingUpdate(r: Request, tasks: seq<Phase>, i: nat, p: Phase)
    requires i < |tasks|
    ensures Remaining(r, tasks[i := p]) + Work(r, i, tasks[i]) == Remaining(r, tasks) + Work(r, i, p)
  {
    var front := tasks[..|tasks| - 1];
    if i == |tasks| - 1 {
      assert tasks[i := p][..|tasks| - 1] == front;
    } else {
      RemainingUpdate(r, front, i, p);
      assert tasks[i := p][..|tasks| - 1] == front[i := p];
    }
  }

  /** Every step is progress, so no schedule goes on forever. */
  lemma StepsEnd(r: Request, s: State, t: State)
    requires Next(r, s, t)
    ensures Remaining(r, t.tasks) < Remaining(r, s.tasks)
  {
    var i: nat :| Step(r, s, t, i);
    RemainingUpdate(r, s.tasks, i, t.tasks[i]);
    assert t.tasks == s.tasks[i := t.tasks[i]];
  }

  /** Until all searches are finished some step can be taken: the lock never blocks them all. */
  lemma NoDeadlock(r: Request, states: seq<State>, k: nat) returns (t: State)
    requires Run(r, states) && k < |states| && !Done(states[k])
    ensures Next(r, states[k], t)
  {
    RunKeeps(r, states, k);
    var s := states[k];
    var i: nat;
    if s.lock.Some? {
      i := s.lock.value;
    } else {
      i :| 0 <= i < |s.tasks| && !s.tasks[i].Finished?;
    }
    match s.tasks[i] {
      case Searching =>
        if r.outcomes[i].Failed? {
          t := s.(error := if s.error.None? then Some(r.outcomes[i].message) else s.error,
                  tasks := s.tasks[i := Finished]);
          assert Fail(r, s, t, i);
        } else {
          t := s.(stats := if r.outcomes[i].stats.Some? then r.outcomes[i].stats else s.stats,
                  tasks := s.tasks[i := Reported]);
          assert ReportStats(r, s, t, i);
        }
      case Reported =>
        t := s.(lock := Some(i), tasks := s.tasks[i := Appending(0)]);
        assert Lock(r, s, t, i);
      case Appending(copied) =>
        if copied < |Block(r, i)| {
          t := s.(relations := s.relations + [Block(r, i)[copied]], tasks := s.tasks[i := Appending(copied + 1)]);
          assert CopyOne(r, s, t, i);
        } else {
          t := s.(lock := None, tasks := s.tasks[i := Finished],
                  order := if Keeps(r, i) then s.order + [i] else s.order);
          assert Unlock(r, s, t, i);
        }
    }
    assert Step(r, s, t, i);
  }
}
