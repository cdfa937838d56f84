// The protocol of an ordered collector: jobs set their results and count down, in any interleaving; one of them
// sets the result that stands for all.
module OrderedCollector {
  import opened Jobs
  import opened Options

  // What counting down finds: whether the job was the first, and the last.
  datatype Turn = Turn(first: bool, last: bool)

  datatype Config<V, E> = Config(outcomes: seq<Outcome<V, E>>, asIterator: bool, hasTarget: bool)

  datatype State<V, E> = State(
    pc: seq<Pc<Turn>>,
    data: seq<Option<Outcome<V, E>>>,
    event: seq<bool>,
    remaining: int,
    target: Option<Note<V, E>>,
    targetEvent: bool,
    order: seq<nat>,   // the jobs in the order in which they have counted down
    writers: seq<nat>  // the jobs that have written the notified result
  )

  // The jobs are registered before any of them runs.
  function Init<V, E>(c: Config<V, E>): State<V, E> {
    var n := |c.outcomes|;
    State(seq(n, _ => Waiting), seq(n, _ => None), seq(n, _ => false), n, None, false, [], [])
  }

  predicate Notifies<V, E>(c: Config<V, E>, p: Pc<Turn>) {
    p.Reported? && c.hasTarget && if c.asIterator then p.found.first else p.found.last
  }

  // [r.get(0) for r in results], up to position n.
  function Gathered<V, E>(data: seq<Option<Outcome<V, E>>>, event: seq<bool>, n: nat): Note<V, E>
    requires n <= |data| == |event|
  {
    if n == 0 then ListOf([])
    else
      match Gathered(data, event, n - 1)
      case ListOf(values) =>
        if !event[n - 1] || data[n - 1].None? then TimedOut
        else
          (match data[n - 1].value
           case Value(v) => ListOf(values + [v])
           case Raised(e) => Failed(e))
      case other => other
  }

  ghost predicate Shape<V, E>(c: Config<V, E>, s: State<V, E>) {
    |s.pc| == |s.data| == |s.event| == |c.outcomes|
  }

  // Job j takes its next step.
  ghost predicate Step<V, E>(c: Config<V, E>, s: State<V, E>, t: State<V, E>, j: nat)
    requires Shape(c, s)
  {
    j < |c.outcomes| &&
    match s.pc[j]
    case Waiting => t == s.(data := s.data[j := Some(c.outcomes[j])], pc := s.pc[j := Written])
    case Written => t == s.(event := s.event[j := true], pc := s.pc[j := Set])
    case Set =>
      t == s.(remaining := s.remaining - 1, order := s.order + [j],
              pc := s.pc[j := Reported(Turn(|c.outcomes| == s.remaining, s.remaining - 1 == 0))])
    case Reported(_) =>
      if Notifies(c, s.pc[j]) then
        t == s.(target := Some(if c.asIterator then Iterator else Gathered(s.data, s.event, |c.outcomes|)),
                writers := s.writers + [j], pc := s.pc[j := Told])
      else t == s.(pc := s.pc[j := Done])
    case Told => t == s.(targetEvent := true, pc := s.pc[j := Done])
    case Done => false
  }

  // The assertion that job j makes in its next step.
  predicate Asserts<V, E>(c: Config<V, E>, s: State<V, E>, j: nat)
    requires j < |s.pc| && j < |s.event|
  {
    match s.pc[j]
    case Waiting => !s.event[j]
    case Set => s.remaining > 0
    case Reported(_) => Notifies(c, s.pc[j]) ==> !s.targetEvent
    case _ => true
  }

  // ----- The invariant

  // Counting down gives every job its place in the order, and tells the first and the last.
  ghost predicate OrderMatches<V, E>(c: Config<V, E>, s: State<V, E>)
    requires Shape(c, s)
  {
    DistinctJobs(s.order) && s.remaining == |c.outcomes| - |s.order| && |s.order| <= |c.outcomes| &&
    (forall j :: 0 <= j < |s.pc| ==> (HasReported(s.pc[j]) <==> j in s.order)) &&
    (forall a :: 0 <= a < |s.order| ==> s.order[a] < |s.pc|) &&
    forall a :: 0 <= a < |s.order| && s.pc[s.order[a]].Reported? ==>
      s.pc[s.order[a]] == Reported(Turn(a == 0, a == |c.outcomes| - 1))
  }

  // The job whose turn it is to notify.
  function Notifier<V, E>(c: Config<V, E>): nat {
    if c.asIterator || |c.outcomes| == 0 then 0 else |c.outcomes| - 1
  }

  // What the notified result is to become: an iterator at the first result, or the result of the sequential map.
  function ExpectedNote<V, E>(c: Config<V, E>): Note<V, E> {
    if c.asIterator then Iterator else MapResult(c.outcomes, |c.outcomes|)
  }

  // The notified result is written by the notifier only, when it has counted down, with the right note.
  ghost predicate TargetMatches<V, E>(c: Config<V, E>, s: State<V, E>)
    requires Shape(c, s) && OrderMatches(c, s)
  {
    var k := Notifier(c);
    (forall j {:trigger s.pc[j]} :: 0 <= j < |s.pc| && s.pc[j].Told? ==> c.hasTarget && k < |s.order| && j == s.order[k]) &&
    if c.hasTarget && k < |s.order| then
      var p := s.pc[s.order[k]];
      s.writers == (if p.Reported? then [] else [s.order[k]]) &&
      s.target == (if p.Reported? then None else Some(ExpectedNote(c))) &&
      (s.targetEvent <==> p.Done?)
    else s.writers == [] && s.target == None && !s.targetEvent
  }

  ghost predicate Inv<V, E>(c: Config<V, E>, s: State<V, E>) {
    Shape(c, s) && ResultsMatch(c.outcomes, s.pc, s.data, s.event) && OrderMatches(c, s) && TargetMatches(c, s)
  }

  lemma InitInv<V, E>(c: Config<V, E>)
    ensures Inv(c, Init(c))
  {
  }

  // ----- Every step keeps the invariant

  lemma {:induction false} GatheredIsMap<V, E>(c: Config<V, E>, data: seq<Option<Outcome<V, E>>>, event: seq<bool>, n: nat)
    requires n <= |data| == |event| == |c.outcomes|
    requires forall i :: 0 <= i < n ==> event[i] && data[i] == Some(c.outcomes[i])
    ensures Gathered(data, event, n) == MapResult(c.outcomes, n)
  {
    if n > 0 {
      GatheredIsMap(c, data, event, n - 1);
    }
  }

  // The note that the notifier writes is the right one.
  lemma NoteIsExpected<V, E>(c: Config<V, E>, s: State<V, E>, j: nat)
    requires Inv(c, s) && j < |s.pc| && Notifies(c, s.pc[j])
    ensures (if c.asIterator then Iterator else Gathered(s.data, s.event, |c.outcomes|)) == ExpectedNote(c)
    ensures Notifier(c) < |s.order| && s.order[Notifier(c)] == j
  {
    assert j in s.order;
    var a :| 0 <= a < |s.order| && s.order[a] == j;
    assert a == Notifier(c);
    if !c.asIterator {
      AllCounted(s.order, |c.outcomes|);
      GatheredIsMap(c, s.data, s.event, |c.outcomes|);
    }
  }

  // Only the notifier notifies.
  lemma OthersDoNotNotify<V, E>(c: Config<V, E>, s: State<V, E>, j: nat)
    requires Inv(c, s) && j < |s.pc| && s.pc[j].Reported? && !Notifies(c, s.pc[j])
    ensures c.hasTarget ==> Notifier(c) >= |s.order| || s.order[Notifier(c)] != j
  {
  }

  lemma ResultsKept<V, E>(c: Config<V, E>, s: State<V, E>, t: State<V, E>, j: nat)
    requires Inv(c, s) && Step(c, s, t, j)
    ensures Shape(c, t) && ResultsMatch(c.outcomes, t.pc, t.data, t.event)
  {
    hide TargetMatches, OrderMatches, ExpectedNote, Gathered;
  }

  // A job that has not counted down leaves room for itself.
  lemma RoomFor<V, E>(c: Config<V, E>, s: State<V, E>, j: nat)
    requires Inv(c, s) && j < |s.pc| && !HasReported(s.pc[j])
    ensures |s.order| < |c.outcomes| && j !in s.order
  {
    hide TargetMatches, ResultsMatch;
    if |s.order| == |c.outcomes| {
      AllCounted(s.order, |c.outcomes|);
      assert false;
    }
  }

  // What the counter tells a job that counts down: whether none has before, and whether all others have.
  lemma CountingTells<V, E>(c: Config<V, E>, s: State<V, E>, j: nat)
    requires Inv(c, s) && j < |s.pc| && s.pc[j].Set?
    ensures s.remaining == |c.outcomes| <==> forall i :: 0 <= i < |s.pc| ==> !HasReported(s.pc[i])
    ensures s.remaining == 1 <==> forall i :: 0 <= i < |s.pc| && i != j ==> HasReported(s.pc[i])
  {
    hide TargetMatches, ResultsMatch;
    RoomFor(c, s, j);
    var all := s.order + [j];
    assert s.order != [] ==> s.order[0] in s.order;
    if |all| == |c.outcomes| {
      AllCounted(all, |c.outcomes|);
      forall i | 0 <= i < |s.pc| && i != j
        ensures HasReported(s.pc[i])
      {
        assert i in all && i in s.order;
      }
    }
    if forall i :: 0 <= i < |s.pc| && i != j ==> HasReported(s.pc[i]) {
      OrderOfAll(all, |c.outcomes|);
    }
  }

  lemma OrderKept<V, E>(c: Config<V, E>, s: State<V, E>, t: State<V, E>, j: nat)
    requires Inv(c, s) && Step(c, s, t, j)
    ensures Shape(c, t) && OrderMatches(c, t)
  {
    hide OrderMatches, TargetMatches, ResultsMatch, ExpectedNote, Gathered, Notifies;
    if s.pc[j].Set? {
      RoomFor(c, s, j);
      OrderGrows(c, s, t, j);
    } else {
      OrderStays(c, s, t);
    }
  }

  // A step of a job that does not count down.
  lemma OrderStays<V, E>(c: Config<V, E>, s: State<V, E>, t: State<V, E>)
    requires Shape(c, s) && Shape(c, t) && OrderMatches(c, s) && t.order == s.order && t.remaining == s.remaining
    requires forall i :: 0 <= i < |s.pc| ==>
               (HasReported(t.pc[i]) <==> HasReported(s.pc[i])) && (t.pc[i].Reported? ==> t.pc[i] == s.pc[i])
    ensures OrderMatches(c, t)
  {
    hide DistinctJobs, HasReported;
  }

  // A job that counts down takes the next place.
  lemma OrderGrows<V, E>(c: Config<V, E>, s: State<V, E>, t: State<V, E>, j: nat)
    requires Shape(c, s) && OrderMatches(c, s) && Step(c, s, t, j) && s.pc[j].Set?
    requires |s.order| < |c.outcomes| && j !in s.order
    ensures Shape(c, t) && OrderMatches(c, t)
  {
    assert t.order == s.order + [j] && t.pc == s.pc[j := t.pc[j]];
    hide Step, HasReported;
    assert HasReported(t.pc[j]) by {
      OneReported(c, s, t, j);
    }
    assert t.remaining == s.remaining - 1 && t.pc[j] == Reported(Turn(|c.outcomes| == s.remaining, s.remaining == 1)) by {
      OneReported(c, s, t, j);
    }
    forall i | 0 <= i < |t.pc|
      ensures HasReported(t.pc[i]) <==> i in t.order
    {
    }
  }

  lemma OneReported<V, E>(c: Config<V, E>, s: State<V, E>, t: State<V, E>, j: nat)
    requires Shape(c, s) && Step(c, s, t, j) && s.pc[j].Set?
    ensures HasReported(t.pc[j]) && t.remaining == s.remaining - 1
    ensures t.pc[j] == Reported(Turn(|c.outcomes| == s.remaining, s.remaining == 1))
  {
  }

  lemma TargetKept<V, E>(c: Config<V, E>, s: State<V, E>, t: State<V, E>, j: nat)
    requires Inv(c, s) && Step(c, s, t, j) && Shape(c, t) && OrderMatches(c, t)
    ensures TargetMatches(c, t)
  {
    if s.pc[j].Set? {
      CountingKeepsTarget(c, s, t, j);
    } else if Notifies(c, s.pc[j]) {
      NoteIsExpected(c, s, j);
      NotifyingKeepsTarget(c, s, t, j);
    } else {
      if s.pc[j].Reported? {
        OthersDoNotNotify(c, s, j);
      }
      OthersKeepTarget(c, s, t, j);
    }
  }

  lemma CountingKeepsTarget<V, E>(c: Config<V, E>, s: State<V, E>, t: State<V, E>, j: nat)
    requires Inv(c, s) && Step(c, s, t, j) && Shape(c, t) && OrderMatches(c, t) && s.pc[j].Set?
    ensures TargetMatches(c, t)
  {
    hide ResultsMatch, ExpectedNote, Gathered;
    RoomFor(c, s, j);
    var k := Notifier(c);
    assert k < |s.order| ==> t.order[k] == s.order[k] != j;
    hide DistinctJobs, Notifier;
  }

  lemma NotifyingKeepsTarget<V, E>(c: Config<V, E>, s: State<V, E>, t: State<V, E>, j: nat)
    requires Inv(c, s) && Step(c, s, t, j) && Shape(c, t) && OrderMatches(c, t)
    requires Notifies(c, s.pc[j]) && Notifier(c) < |s.order| && s.order[Notifier(c)] == j
    requires (if c.asIterator then Iterator else Gathered(s.data, s.event, |c.outcomes|)) == ExpectedNote(c)
    ensures TargetMatches(c, t)
  {
    hide ResultsMatch, ExpectedNote, Gathered, Notifier, DistinctJobs;
  }

  lemma OthersKeepTarget<V, E>(c: Config<V, E>, s: State<V, E>, t: State<V, E>, j: nat)
    requires Inv(c, s) && Step(c, s, t, j) && Shape(c, t) && OrderMatches(c, t)
    requires !s.pc[j].Set? && !Notifies(c, s.pc[j])
    requires s.pc[j].Reported? && c.hasTarget ==> Notifier(c) >= |s.order| || s.order[Notifier(c)] != j
    ensures TargetMatches(c, t)
  {
    hide ResultsMatch, ExpectedNote, Gathered, Notifier, DistinctJobs;
  }

  lemma StepKeepsInv<V, E>(c: Config<V, E>, s: State<V, E>, t: State<V, E>, j: nat)
    requires Inv(c, s) && Step(c, s, t, j)
    ensures Inv(c, t)
  {
    ResultsKept(c, s, t, j);
    OrderKept(c, s, t, j);
    TargetKept(c, s, t, j);
  }

  // ----- Runs

  ghost predicate CanStep<V(!new), E(!new)>(c: Config<V, E>, s: State<V, E>, t: State<V, E>) {
    Shape(c, s) && exists j: nat :: Step(c, s, t, j)
  }

  // A run takes jobs one step further, in any interleaving.
  ghost predicate IsRun<V(!new), E(!new)>(c: Config<V, E>, run: seq<State<V, E>>) {
    run != [] && run[0] == Init(c) && forall i: nat :: i + 1 < |run| ==> StepAt(c, run, i)
  }

  ghost predicate StepAt<V(!new), E(!new)>(c: Config<V, E>, run: seq<State<V, E>>, i: nat)
    requires i + 1 < |run|
  {
    CanStep(c, run[i], run[i + 1])
  }

  lemma RunStep<V(!new), E(!new)>(c: Config<V, E>, run: seq<State<V, E>>, i: nat) returns (j: nat)
    requires IsRun(c, run) && i + 1 < |run|
    ensures Shape(c, run[i]) && Step(c, run[i], run[i + 1], j)
  {
    hide Step, Shape;
    assert StepAt(c, run, i);
    j :| Step(c, run[i], run[i + 1], j);
  }

  lemma {:induction false} RunInv<V(!new), E(!new)>(c: Config<V, E>, run: seq<State<V, E>>, i: nat)
    requires IsRun(c, run) && i < |run|
    ensures Inv(c, run[i])
  {
    if i == 0 {
      InitInv(c);
    } else {
      hide *;
      RunInv(c, run, i - 1);
      var j := RunStep(c, run, i - 1);
      StepKeepsInv(c, run[i - 1], run[i], j);
    }
  }

  // In no run does an assertion fail; the notified result is written at most once, and then with the expected
  // note: in list mode when all results are ready, otherwise when one is.
  lemma RunIsSafe<V(!new), E(!new)>(c: Config<V, E>, run: seq<State<V, E>>, i: nat)
    requires IsRun(c, run) && i < |run|
    ensures var s := run[i];
      && Shape(c, s)
      && (forall j: nat :: j < |s.pc| ==> Asserts(c, s, j))
      && |s.writers| <= 1
      && (s.target.Some? <==> s.writers != [])
      && (s.target.Some? ==> c.hasTarget && s.target.value == ExpectedNote(c))
      && (s.target.Some? && !c.asIterator ==> forall j :: 0 <= j < |s.event| ==> s.event[j])
      && (s.target.Some? && c.asIterator ==> exists j :: 0 <= j < |s.event| && s.event[j])
  {
    RunInv(c, run, i);
    var s := run[i];
    forall j: nat | j < |s.pc|
      ensures Asserts(c, s, j)
    {
      AssertsHold(c, s, j);
    }
    TargetWhen(c, s);
  }

  lemma AssertsHold<V, E>(c: Config<V, E>, s: State<V, E>, j: nat)
    requires Inv(c, s) && j < |s.pc|
    ensures Asserts(c, s, j)
  {
    if s.pc[j].Set? {
      RoomFor(c, s, j);
    } else if Notifies(c, s.pc[j]) {
      NoteIsExpected(c, s, j);
    }
  }

  lemma TargetWhen<V, E>(c: Config<V, E>, s: State<V, E>)
    requires Inv(c, s)
    ensures s.target.Some? && !c.asIterator ==> forall j :: 0 <= j < |s.event| ==> s.event[j]
    ensures s.target.Some? && c.asIterator ==> exists j :: 0 <= j < |s.event| && s.event[j]
  {
    if s.target.Some? {
      if c.asIterator {
        assert s.order[0] in s.order && s.event[s.order[0]];
      } else {
        AllCounted(s.order, |c.outcomes|);
      }
    }
  }

  // Once written, the notified result stays as it is.
  lemma {:induction false} TargetStays<V(!new), E(!new)>(c: Config<V, E>, run: seq<State<V, E>>, i: nat, k: nat)
    requires IsRun(c, run) && i <= k < |run| && run[i].target.Some?
    ensures run[k].target == run[i].target && run[k].writers == run[i].writers
    ensures run[i].targetEvent ==> run[k].targetEvent
  {
    hide *;
    if i < k {
      TargetStays(c, run, i, k - 1);
      RunInv(c, run, k - 1);
      var j := RunStep(c, run, k - 1);
      TargetStep(c, run[k - 1], run[k], j);
    }
  }

  lemma TargetStep<V, E>(c: Config<V, E>, s: State<V, E>, t: State<V, E>, j: nat)
    requires Inv(c, s) && Step(c, s, t, j) && s.target.Some?
    ensures t.target == s.target && t.writers == s.writers && (s.targetEvent ==> t.targetEvent)
  {
    assert Notifies(c, s.pc[j]) ==> s.order[Notifier(c)] == j by {
      if Notifies(c, s.pc[j]) {
        NoteIsExpected(c, s, j);
      }
    }
  }

  // ----- Completion

  // As long as a job is not done, there is a next step.
  lemma Progress<V(!new), E(!new)>(c: Config<V, E>, s: State<V, E>) returns (t: State<V, E>)
    requires Shape(c, s) && !AllDone(s.pc)
    ensures CanStep(c, s, t)
  {
    var j :| 0 <= j < |s.pc| && !s.pc[j].Done?;
    match s.pc[j] {
      case Waiting => t := s.(data := s.data[j := Some(c.outcomes[j])], pc := s.pc[j := Written]);
      case Written => t := s.(event := s.event[j := true], pc := s.pc[j := Set]);
      case Set =>
        t := s.(remaining := s.remaining - 1, order := s.order + [j],
                pc := s.pc[j := Reported(Turn(|c.outcomes| == s.remaining, s.remaining - 1 == 0))]);
      case Reported(_) =>
        if Notifies(c, s.pc[j]) {
          t := s.(target := Some(if c.asIterator then Iterator else Gathered(s.data, s.event, |c.outcomes|)),
                  writers := s.writers + [j], pc := s.pc[j := Told]);
        } else {
          t := s.(pc := s.pc[j := Done]);
        }
      case Told => t := s.(targetEvent := true, pc := s.pc[j := Done]);
    }
    assert Step(c, s, t, j);
  }

  function Rank(p: Pc<Turn>): nat {
    match p
    case Waiting => 5
    case Written => 4
    case Set => 3
    case Reported(_) => 2
    case Told => 1
    case Done => 0
  }

  function Work(pc: seq<Pc<Turn>>): nat {
    if pc == [] then 0 else Work(pc[..|pc| - 1]) + Rank(pc[|pc| - 1])
  }

  lemma {:induction false} WorkOfUpdate(pc: seq<Pc<Turn>>, j: nat, p: Pc<Turn>)
    requires j < |pc|
    ensures Work(pc[j := p]) == Work(pc) - Rank(pc[j]) + Rank(p)
    decreases |pc|
  {
    var n := |pc| - 1;
    if j == n {
      assert pc[j := p][..n] == pc[..n];
    } else {
      WorkOfUpdate(pc[..n], j, p);
      assert pc[j := p][..n] == pc[..n][j := p];
    }
  }

  function AllWaiting(n: nat): seq<Pc<Turn>> {
    seq(n, _ => Waiting)
  }

  lemma {:induction false} WorkOfWaiting(n: nat)
    ensures Work(AllWaiting(n)) == 5 * n
  {
    if n > 0 {
      WorkOfWaiting(n - 1);
      assert AllWaiting(n)[..n - 1] == AllWaiting(n - 1);
    }
  }

  // Every step does some of the work that is left: a run of n jobs has at most 5n steps.
  lemma {:induction false} RunIsShort<V(!new), E(!new)>(c: Config<V, E>, run: seq<State<V, E>>, i: nat)
    requires IsRun(c, run) && i < |run|
    ensures i + Work(run[i].pc) <= 5 * |c.outcomes|
  {
    if i == 0 {
      WorkOfWaiting(|c.outcomes|);
      assert run[0].pc == AllWaiting(|c.outcomes|);
    } else {
      hide *;
      RunIsShort(c, run, i - 1);
      var j := RunStep(c, run, i - 1);
      StepWorks(c, run[i - 1], run[i], j);
    }
  }

  lemma StepWorks<V, E>(c: Config<V, E>, s: State<V, E>, t: State<V, E>, j: nat)
    requires Shape(c, s) && Step(c, s, t, j)
    ensures Work(t.pc) < Work(s.pc)
  {
    assert t.pc == s.pc[j := t.pc[j]] && Rank(t.pc[j]) < Rank(s.pc[j]);
    WorkOfUpdate(s.pc, j, t.pc[j]);
  }

  // What the asynchronous maps return: without arguments the result is set at once, otherwise by the collector.
  function FinalNote<V, E>(c: Config<V, E>, s: State<V, E>): Option<Note<V, E>> {
    if |c.outcomes| == 0 then Some(if c.asIterator then Iterator else ListOf([]))
    else if s.targetEvent then s.target else None
  }

  // A run in which all jobs are done has set the notified result: the concurrent map refines the sequential one.
  lemma CompleteRunNotifies<V(!new), E(!new)>(c: Config<V, E>, run: seq<State<V, E>>)
    requires IsRun(c, run) && c.hasTarget && AllDone(run[|run| - 1].pc)
    ensures FinalNote(c, run[|run| - 1]) == Some(ExpectedNote(c))
    ensures |c.outcomes| > 0 ==> |run[|run| - 1].writers| == 1
  {
    var s := run[|run| - 1];
    RunInv(c, run, |run| - 1);
    if |c.outcomes| > 0 {
      EverybodyCounted(c, s);
      assert s.order[Notifier(c)] < |s.pc|;
    }
  }

  lemma EverybodyCounted<V, E>(c: Config<V, E>, s: State<V, E>)
    requires Inv(c, s) && AllDone(s.pc)
    ensures |s.order| == |c.outcomes|
  {
    forall j: nat | j < |c.outcomes|
      ensures j in s.order
    {
      assert s.pc[j].Done?;
    }
    OrderOfAll(s.order, |c.outcomes|);
  }
}
