// The protocol of an unordered collector: jobs append their results in the order in which they finish, and any
// number of iterators read them, in any interleaving.
module UnorderedCollector {
  import opened Jobs
  import opened Options
  import opened Sequences

  // A pass of an iterator from one StopIteration to the next: what it yielded before each wait that expired, and
  // what it has yielded since the last of them.
  datatype Pass = Pass(lost: seq<seq<nat>>, yielded: seq<nat>) {
    // Everything that a pass has handed out.
    function HandedOut(): seq<nat> {
      Concat(lost) + yielded
    }

    // No wait expired after something had been handed out.
    predicate Undisturbed() {
      forall i :: 0 <= i < |lost| ==> lost[i] == []
    }
  }

  // An iterator: its index, whether it waits for the condition, the pass it is in, and the passes that have ended.
  datatype Reader = Reader(idx: nat, blocked: bool, pass: Pass, passes: seq<Pass>)

  function NewReader(): Reader {
    Reader(0, false, Pass([], []), [])
  }

  // The number of jobs, and whether there is a result to notify.
  datatype Config<V, E> = Config(outcomes: seq<Outcome<V, E>>, hasTarget: bool)

  datatype State<V, E> = State(
    pc: seq<Pc<bool>>,
    data: seq<Option<Outcome<V, E>>>,
    event: seq<bool>,
    collection: seq<nat>,
    target: Option<Note<V, E>>,
    targetEvent: bool,
    writers: seq<nat>,
    readers: seq<Reader>
  )

  // The jobs are registered, and the iterators made, before anything else.
  function Init<V, E>(c: Config<V, E>, readers: nat): State<V, E> {
    var n := |c.outcomes|;
    State(seq(n, _ => Waiting), seq(n, _ => None), seq(n, _ => false), [], None, false, [],
          seq(readers, _ => NewReader()))
  }

  predicate Notifies<V, E>(c: Config<V, E>, p: Pc<bool>) {
    p.Reported? && c.hasTarget && p.found
  }

  ghost predicate Shape<V, E>(c: Config<V, E>, s: State<V, E>) {
    |s.pc| == |s.data| == |s.event| == |c.outcomes|
  }

  // Job j takes its next step.
  ghost predicate JobStep<V, E>(c: Config<V, E>, s: State<V, E>, t: State<V, E>, j: nat)
    requires Shape(c, s)
  {
    j < |c.outcomes| &&
    match s.pc[j]
    case Waiting => t == s.(data := s.data[j := Some(c.outcomes[j])], pc := s.pc[j := Written])
    case Written => t == s.(event := s.event[j := true], pc := s.pc[j := Set])
    case Set => t == s.(collection := s.collection + [j], pc := s.pc[j := Reported(|s.collection + [j]| == 1)])
    case Reported(_) =>
      if Notifies(c, s.pc[j]) then
        t == s.(target := Some(Iterator), writers := s.writers + [j], pc := s.pc[j := Told])
      else t == s.(pc := s.pc[j := Done])
    case Told => t == s.(targetEvent := true, pc := s.pc[j := Done])
    case Done => false
  }

  // What the locked part of _get_result finds.
  datatype Found = Stop | Item(job: nat) | Violation | Wait

  function GetResult(collection: seq<nat>, expected: nat, idx: nat): Found {
    if idx >= expected then Stop
    else if idx < |collection| then Item(collection[idx])
    else if idx != |collection| then Violation
    else Wait
  }

  function Yields(r: Reader, job: nat): Reader {
    r.(idx := r.idx + 1, blocked := false, pass := Pass(r.pass.lost, r.pass.yielded + [job]))
  }

  // An expired wait: the index is reset, and what was yielded is going to be yielded again.
  function Expires(r: Reader): Reader {
    r.(idx := 0, blocked := false, pass := Pass(r.pass.lost + [r.pass.yielded], []))
  }

  // StopIteration: the index is reset for the next pass.
  function Stops(r: Reader): Reader {
    Reader(0, false, Pass([], []), r.passes + [r.pass])
  }

  // An iterator calls next. A call that waits is resumed later: by a notification, or because its time is over;
  // without an item it then starts again from the beginning.
  function NextReader(collection: seq<nat>, expected: nat, r: Reader): Reader {
    if r.blocked then
      if r.idx < |collection| then Yields(r, collection[r.idx]) else Expires(r)
    else
      match GetResult(collection, expected, r.idx)
      case Stop => Stops(r)
      case Item(job) => Yields(r, job)
      case Violation => Stops(r)
      case Wait => r.(blocked := true)
  }

  ghost predicate ReadStep<V, E>(c: Config<V, E>, s: State<V, E>, t: State<V, E>, k: nat)
    requires Shape(c, s)
  {
    k < |s.readers| &&
    t == s.(readers := s.readers[k := NextReader(s.collection, |c.outcomes|, s.readers[k])])
  }

  ghost predicate CanStep<V(!new), E(!new)>(c: Config<V, E>, s: State<V, E>, t: State<V, E>) {
    Shape(c, s) && ((exists j: nat :: JobStep(c, s, t, j)) || exists k: nat :: ReadStep(c, s, t, k))
  }

  // The assertions that job j makes in its next step.
  predicate Asserts<V, E>(c: Config<V, E>, s: State<V, E>, j: nat)
    requires j < |s.pc| && j < |s.event|
  {
    match s.pc[j]
    case Waiting => !s.event[j]
    case Reported(_) => Notifies(c, s.pc[j]) ==> !s.targetEvent
    case _ => true
  }

  // ----- The invariant

  // The collection has every job that has appended, once; the first one knows that it is.
  ghost predicate CollectionMatches<V, E>(c: Config<V, E>, s: State<V, E>)
    requires Shape(c, s)
  {
    DistinctJobs(s.collection) && |s.collection| <= |c.outcomes| &&
    (forall j :: 0 <= j < |s.pc| ==> (HasReported(s.pc[j]) <==> j in s.collection)) &&
    (forall a :: 0 <= a < |s.collection| ==> s.collection[a] < |s.pc|) &&
    forall a :: 0 <= a < |s.collection| && s.pc[s.collection[a]].Reported? ==> s.pc[s.collection[a]] == Reported(a == 0)
  }

  // The notified result is written by the first job only.
  ghost predicate TargetMatches<V, E>(c: Config<V, E>, s: State<V, E>)
    requires Shape(c, s) && CollectionMatches(c, s)
  {
    (forall j {:trigger s.pc[j]} :: 0 <= j < |s.pc| && s.pc[j].Told? ==>
       c.hasTarget && s.collection != [] && j == s.collection[0]) &&
    if c.hasTarget && s.collection != [] then
      var p := s.pc[s.collection[0]];
      s.writers == (if p.Reported? then [] else [s.collection[0]]) &&
      s.target == (if p.Reported? then None else Some(Iterator)) &&
      (s.targetEvent <==> p.Done?)
    else s.writers == [] && s.target == None && !s.targetEvent
  }

  // An iterator has yielded the beginning of the collection; a complete pass ends with the whole, final collection.
  ghost predicate ReaderMatches<V, E>(c: Config<V, E>, s: State<V, E>, r: Reader) {
    r.idx <= |s.collection| && r.pass.yielded == s.collection[..r.idx] && Prefixes(s.collection, r.pass.lost) &&
    WholePasses(s.collection, |c.outcomes|, r.passes)
  }

  ghost predicate Prefixes(collection: seq<nat>, lists: seq<seq<nat>>) {
    forall i :: 0 <= i < |lists| ==> lists[i] <= collection
  }

  ghost predicate WholePasses(collection: seq<nat>, expected: nat, passes: seq<Pass>) {
    forall p :: 0 <= p < |passes| ==>
      |collection| == expected && passes[p].yielded == collection && Prefixes(collection, passes[p].lost)
  }

  ghost predicate Inv<V, E>(c: Config<V, E>, s: State<V, E>) {
    Shape(c, s) && ResultsMatch(c.outcomes, s.pc, s.data, s.event) && CollectionMatches(c, s) && TargetMatches(c, s) &&
    forall k :: 0 <= k < |s.readers| ==> ReaderMatches(c, s, s.readers[k])
  }

  lemma InitInv<V, E>(c: Config<V, E>, readers: nat)
    ensures Inv(c, Init(c, readers))
  {
  }

  // ----- Every step keeps the invariant

  lemma ResultsKept<V, E>(c: Config<V, E>, s: State<V, E>, t: State<V, E>, j: nat)
    requires Inv(c, s) && JobStep(c, s, t, j)
    ensures Shape(c, t) && ResultsMatch(c.outcomes, t.pc, t.data, t.event)
  {
    hide TargetMatches, CollectionMatches, ReaderMatches;
  }

  lemma RoomFor<V, E>(c: Config<V, E>, s: State<V, E>, j: nat)
    requires Inv(c, s) && j < |s.pc| && !HasReported(s.pc[j])
    ensures |s.collection| < |c.outcomes| && j !in s.collection
  {
    hide TargetMatches, ResultsMatch, ReaderMatches;
    if |s.collection| == |c.outcomes| {
      AllCounted(s.collection, |c.outcomes|);
      assert false;
    }
  }

  // The collection is empty as long as no job has appended to it.
  lemma AppendingTells<V, E>(c: Config<V, E>, s: State<V, E>)
    requires Inv(c, s)
    ensures s.collection == [] <==> forall i :: 0 <= i < |s.pc| ==> !HasReported(s.pc[i])
  {
    assert s.collection != [] ==> s.collection[0] in s.collection;
  }

  lemma CollectionKept<V, E>(c: Config<V, E>, s: State<V, E>, t: State<V, E>, j: nat)
    requires Inv(c, s) && JobStep(c, s, t, j)
    ensures Shape(c, t) && CollectionMatches(c, t)
    ensures s.collection <= t.collection && (t.collection != s.collection ==> |s.collection| < |c.outcomes|)
  {
    hide CollectionMatches, TargetMatches, ResultsMatch, ReaderMatches, Notifies;
    if s.pc[j].Set? {
      RoomFor(c, s, j);
      CollectionGrows(c, s, t, j);
    } else {
      CollectionStays(c, s, t);
    }
  }

  // A step of a job that does not append.
  lemma CollectionStays<V, E>(c: Config<V, E>, s: State<V, E>, t: State<V, E>)
    requires Shape(c, s) && Shape(c, t) && CollectionMatches(c, s) && t.collection == s.collection
    requires forall i :: 0 <= i < |s.pc| ==>
               (HasReported(t.pc[i]) <==> HasReported(s.pc[i])) && (t.pc[i].Reported? ==> t.pc[i] == s.pc[i])
    ensures CollectionMatches(c, t)
  {
    hide DistinctJobs, HasReported;
  }

  // A job that appends takes the next place.
  lemma CollectionGrows<V, E>(c: Config<V, E>, s: State<V, E>, t: State<V, E>, j: nat)
    requires Shape(c, s) && CollectionMatches(c, s) && JobStep(c, s, t, j) && s.pc[j].Set?
    requires |s.collection| < |c.outcomes| && j !in s.collection
    ensures Shape(c, t) && CollectionMatches(c, t) && s.collection <= t.collection
  {
    assert t.collection == s.collection + [j] && t.pc == s.pc[j := t.pc[j]];
    hide JobStep, HasReported;
    assert HasReported(t.pc[j]) && t.pc[j] == Reported(s.collection == []) by {
      OneAppended(c, s, t, j);
    }
    forall i | 0 <= i < |t.pc|
      ensures HasReported(t.pc[i]) <==> i in t.collection
    {
    }
  }

  lemma OneAppended<V, E>(c: Config<V, E>, s: State<V, E>, t: State<V, E>, j: nat)
    requires Shape(c, s) && JobStep(c, s, t, j) && s.pc[j].Set?
    ensures HasReported(t.pc[j]) && t.pc[j] == Reported(s.collection == [])
  {
  }

  lemma NotifierIsFirst<V, E>(c: Config<V, E>, s: State<V, E>, j: nat)
    requires Inv(c, s) && j < |s.pc| && s.pc[j].Reported?
    ensures s.collection != [] && (s.pc[j].found <==> s.collection[0] == j)
  {
    assert j in s.collection;
    var a :| 0 <= a < |s.collection| && s.collection[a] == j;
  }

  lemma TargetKept<V, E>(c: Config<V, E>, s: State<V, E>, t: State<V, E>, j: nat)
    requires Inv(c, s) && JobStep(c, s, t, j) && Shape(c, t) && CollectionMatches(c, t)
    ensures TargetMatches(c, t)
  {
    if s.pc[j].Set? {
      AppendingKeepsTarget(c, s, t, j);
    } else {
      if s.pc[j].Reported? {
        NotifierIsFirst(c, s, j);
      }
      if Notifies(c, s.pc[j]) {
        NotifyingKeepsTarget(c, s, t, j);
      } else {
        OthersKeepTarget(c, s, t, j);
      }
    }
  }

  lemma AppendingKeepsTarget<V, E>(c: Config<V, E>, s: State<V, E>, t: State<V, E>, j: nat)
    requires Inv(c, s) && JobStep(c, s, t, j) && Shape(c, t) && CollectionMatches(c, t) && s.pc[j].Set?
    ensures TargetMatches(c, t)
  {
    RoomFor(c, s, j);
    hide DistinctJobs, ResultsMatch, ReaderMatches;
    assert s.collection != [] ==> t.collection[0] == s.collection[0] && s.collection[0] in s.collection;
  }

  lemma NotifyingKeepsTarget<V, E>(c: Config<V, E>, s: State<V, E>, t: State<V, E>, j: nat)
    requires Inv(c, s) && JobStep(c, s, t, j) && Shape(c, t) && CollectionMatches(c, t)
    requires Notifies(c, s.pc[j]) && s.collection != [] && s.collection[0] == j
    ensures TargetMatches(c, t)
  {
    hide DistinctJobs, ResultsMatch, ReaderMatches;
  }

  lemma OthersKeepTarget<V, E>(c: Config<V, E>, s: State<V, E>, t: State<V, E>, j: nat)
    requires Inv(c, s) && JobStep(c, s, t, j) && Shape(c, t) && CollectionMatches(c, t)
    requires !s.pc[j].Set? && !Notifies(c, s.pc[j])
    requires s.pc[j].Reported? ==> s.collection != [] && (s.pc[j].found <==> s.collection[0] == j)
    ensures TargetMatches(c, t)
  {
    hide DistinctJobs, ResultsMatch, ReaderMatches;
    assert s.collection != [] ==> s.collection[0] in s.collection;
  }

  // A longer collection agrees with what the iterators have yielded; a complete one does not grow.
  lemma ReadersKept<V, E>(c: Config<V, E>, s: State<V, E>, t: State<V, E>, r: Reader)
    requires ReaderMatches(c, s, r) && s.collection <= t.collection
    requires t.collection != s.collection ==> |s.collection| < |c.outcomes|
    ensures ReaderMatches(c, t, r)
  {
    assert t.collection[..r.idx] == s.collection[..r.idx];
    assert r.passes != [] ==> r.passes[0].yielded == s.collection && t.collection == s.collection;
  }

  lemma JobStepKeepsInv<V, E>(c: Config<V, E>, s: State<V, E>, t: State<V, E>, j: nat)
    requires Inv(c, s) && JobStep(c, s, t, j)
    ensures Inv(c, t)
  {
    ResultsKept(c, s, t, j);
    CollectionKept(c, s, t, j);
    TargetKept(c, s, t, j);
    assert t.readers == s.readers;
    hide ResultsMatch, CollectionMatches, TargetMatches, ReaderMatches, JobStep;
    forall k | 0 <= k < |t.readers|
      ensures ReaderMatches(c, t, t.readers[k])
    {
      ReadersKept(c, s, t, s.readers[k]);
    }
  }

  // The branch for a violated protocol is not reachable.
  lemma NoViolation<V, E>(c: Config<V, E>, s: State<V, E>, r: Reader)
    requires ReaderMatches(c, s, r)
    ensures GetResult(s.collection, |c.outcomes|, r.idx) != Violation
  {
  }

  lemma ReadStepKeepsInv<V, E>(c: Config<V, E>, s: State<V, E>, t: State<V, E>, k: nat)
    requires Inv(c, s) && ReadStep(c, s, t, k)
    ensures Inv(c, t)
  {
    assert t == s.(readers := t.readers) && t.readers == s.readers[k := t.readers[k]];
    ReadKeepsReader(c, s, s.readers[k], t.readers[k]);
    OnlyReadersDiffer(c, s, t);
    hide ReadStep, ReaderMatches;
    forall i | 0 <= i < |t.readers|
      ensures ReaderMatches(c, t, t.readers[i])
    {
      ReadersKept(c, s, t, t.readers[i]);
    }
  }

  lemma OnlyReadersDiffer<V, E>(c: Config<V, E>, s: State<V, E>, t: State<V, E>)
    requires Inv(c, s) && t == s.(readers := t.readers)
    ensures Shape(c, t) && ResultsMatch(c.outcomes, t.pc, t.data, t.event) && CollectionMatches(c, t) && TargetMatches(c, t)
  {
  }

  lemma ReadKeepsReader<V, E>(c: Config<V, E>, s: State<V, E>, r: Reader, q: Reader)
    requires ReaderMatches(c, s, r) && |s.collection| <= |c.outcomes|
    requires q == NextReader(s.collection, |c.outcomes|, r)
    ensures ReaderMatches(c, s, q)
  {
    hide WholePasses;
    if r.idx < |s.collection| {
      assert q.pass.yielded == s.collection[..r.idx + 1];
    } else {
      assert r.pass.yielded == s.collection;
      assert q.pass.yielded == s.collection[..q.idx];
      if !r.blocked && r.idx >= |c.outcomes| {
        OneMorePass(s.collection, |c.outcomes|, r.passes, r.pass);
      }
    }
  }

  lemma OneMorePass(collection: seq<nat>, expected: nat, passes: seq<Pass>, p: Pass)
    requires WholePasses(collection, expected, passes) && |collection| == expected
    requires p.yielded == collection && Prefixes(collection, p.lost)
    ensures WholePasses(collection, expected, passes + [p])
  {
  }

  // ----- Runs

  ghost predicate IsRun<V(!new), E(!new)>(c: Config<V, E>, readers: nat, run: seq<State<V, E>>) {
    run != [] && run[0] == Init(c, readers) && forall i: nat :: i + 1 < |run| ==> StepAt(c, run, i)
  }

  ghost predicate StepAt<V(!new), E(!new)>(c: Config<V, E>, run: seq<State<V, E>>, i: nat)
    requires i + 1 < |run|
  {
    CanStep(c, run[i], run[i + 1])
  }

  lemma StepKeepsInv<V(!new), E(!new)>(c: Config<V, E>, s: State<V, E>, t: State<V, E>)
    requires Inv(c, s) && CanStep(c, s, t)
    ensures Inv(c, t)
    ensures s.collection <= t.collection
  {
    hide JobStep, ReadStep, Inv;
    if j: nat :| JobStep(c, s, t, j) {
      JobStepKeepsInv(c, s, t, j);
      Appends(c, s, t, j);
    } else {
      var k: nat :| ReadStep(c, s, t, k);
      ReadStepKeepsInv(c, s, t, k);
      ReadsOnly(c, s, t, k);
    }
  }

  lemma Appends<V, E>(c: Config<V, E>, s: State<V, E>, t: State<V, E>, j: nat)
    requires Shape(c, s) && JobStep(c, s, t, j)
    ensures s.collection <= t.collection
  {
  }

  lemma ReadsOnly<V, E>(c: Config<V, E>, s: State<V, E>, t: State<V, E>, k: nat)
    requires Shape(c, s) && ReadStep(c, s, t, k)
    ensures s.collection == t.collection
  {
  }

  lemma {:induction false} RunInv<V(!new), E(!new)>(c: Config<V, E>, readers: nat, run: seq<State<V, E>>, i: nat)
    requires IsRun(c, readers, run) && i < |run|
    ensures Inv(c, run[i])
  {
    hide Inv, CanStep, Init;
    if i == 0 {
      InitInv(c, readers);
    } else {
      RunInv(c, readers, run, i - 1);
      assert StepAt(c, run, i - 1);
      StepKeepsInv(c, run[i - 1], run[i]);
    }
  }

  // The collection only grows at its end.
  lemma {:induction false} AppendOnly<V(!new), E(!new)>(c: Config<V, E>, readers: nat, run: seq<State<V, E>>, i: nat, k: nat)
    requires IsRun(c, readers, run) && i <= k < |run|
    ensures run[i].collection <= run[k].collection
  {
    hide Inv, CanStep, Init;
    if i < k {
      AppendOnly(c, readers, run, i, k - 1);
      RunInv(c, readers, run, k - 1);
      assert StepAt(c, run, k - 1);
      StepKeepsInv(c, run[k - 1], run[k]);
    }
  }

  // In no run does an assertion of a job fail. The collection holds ready results, each once; the notified result
  // is written at most once; every iterator yields the collection from its start, in the order of completion,
  // is never ahead of it, finds only ready results, and each of its complete passes has all results, each once.
  lemma RunIsSafe<V(!new), E(!new)>(c: Config<V, E>, readers: nat, run: seq<State<V, E>>, i: nat)
    requires IsRun(c, readers, run) && i < |run|
    ensures var s := run[i];
      && Shape(c, s)
      && (forall j: nat :: j < |s.pc| ==> Asserts(c, s, j))
      && DistinctJobs(s.collection)
      && (forall a :: 0 <= a < |s.collection| ==> s.collection[a] < |s.event| && s.event[s.collection[a]])
      && |s.writers| <= 1 && (s.target.Some? <==> s.writers != []) && (s.target.Some? ==> s.collection != [])
  {
    RunInv(c, readers, run, i);
    StateIsSafe(c, run[i]);
  }

  lemma StateIsSafe<V, E>(c: Config<V, E>, s: State<V, E>)
    requires Inv(c, s)
    ensures forall j: nat :: j < |s.pc| ==> Asserts(c, s, j)
    ensures forall a :: 0 <= a < |s.collection| ==> s.collection[a] < |s.event| && s.event[s.collection[a]]
    ensures |s.writers| <= 1 && (s.target.Some? <==> s.writers != []) && (s.target.Some? ==> s.collection != [])
  {
    forall j: nat | j < |s.pc|
      ensures Asserts(c, s, j)
    {
      if s.pc[j].Reported? {
        NotifierIsFirst(c, s, j);
      }
    }
    forall a | 0 <= a < |s.collection|
      ensures s.collection[a] < |s.event| && s.event[s.collection[a]]
    {
      assert s.collection[a] in s.collection;
    }
  }

  // What an iterator hands out, over every run: since the last StopIteration it is the collection up to its index if
  // and only if no wait expired after something had been handed out; and likewise for every pass that has ended, which
  // then was the complete collection. Each time between two expired waits, it begins again at the first result.
  lemma ReadersAreSafe<V(!new), E(!new)>(c: Config<V, E>, readers: nat, run: seq<State<V, E>>, i: nat, k: nat)
    requires IsRun(c, readers, run) && i < |run| && k < |run[i].readers|
    ensures var s, r := run[i], run[i].readers[k];
      && GetResult(s.collection, |c.outcomes|, r.idx) != Violation
      && r.idx <= |s.collection| && r.pass.yielded == s.collection[..r.idx] && Prefixes(s.collection, r.pass.lost)
      && (r.pass.HandedOut() == s.collection[..r.idx] <==> r.pass.Undisturbed())
      && (r.passes != [] ==> |s.collection| == |c.outcomes| && forall j: nat :: j < |c.outcomes| ==> j in s.collection)
      && (forall p :: p in r.passes ==> (p.HandedOut() == s.collection <==> p.Undisturbed()))
  {
    RunInv(c, readers, run, i);
    var s, r := run[i], run[i].readers[k];
    assert ReaderMatches(c, s, r);
    NoViolation(c, s, r);
    HandedOutOnce(r.pass);
    if r.passes != [] {
      assert r.passes[0].yielded == s.collection;
      AllCounted(s.collection, |c.outcomes|);
    }
    forall p | p in r.passes
      ensures p.HandedOut() == s.collection <==> p.Undisturbed()
    {
      assert p.yielded == s.collection;
      HandedOutOnce(p);
    }
  }

  // Nothing was handed out besides what was yielded last if and only if every dropped part is empty.
  lemma HandedOutOnce(p: Pass)
    ensures p.HandedOut() == p.yielded <==> p.Undisturbed()
  {
    ConcatEmpty(p.lost);
    assert |p.HandedOut()| == |Concat(p.lost)| + |p.yielded|;
  }

  // When all jobs are done, the result has been notified, and an iterator can be read to its end.
  lemma CompleteRunNotifies<V(!new), E(!new)>(c: Config<V, E>, readers: nat, run: seq<State<V, E>>)
    requires IsRun(c, readers, run) && AllDone(run[|run| - 1].pc)
    ensures var s := run[|run| - 1];
      && |s.collection| == |c.outcomes|
      && (c.hasTarget && |c.outcomes| > 0 ==> s.targetEvent && s.target == Some(Iterator) && |s.writers| == 1)
      && (forall r :: r in s.readers ==> !GetResult(s.collection, |c.outcomes|, r.idx).Wait?)
  {
    var s := run[|run| - 1];
    RunInv(c, readers, run, |run| - 1);
    forall j: nat | j < |c.outcomes|
      ensures j in s.collection
    {
      assert s.pc[j].Done?;
    }
    OrderOfAll(s.collection, |c.outcomes|);
  }

  // ----- A run with an expired wait

  lemma Extended<V(!new), E(!new)>(c: Config<V, E>, readers: nat, run: seq<State<V, E>>, t: State<V, E>)
    requires IsRun(c, readers, run) && CanStep(c, run[|run| - 1], t)
    ensures IsRun(c, readers, run + [t])
  {
    hide CanStep, Init;
    forall i: nat | i + 1 < |run + [t]|
      ensures StepAt(c, run + [t], i)
    {
      assert i + 1 < |run| ==> StepAt(c, run, i);
    }
  }

  // One iterator of two jobs: it reads the first result, its wait for the second expires, and it hands out the first
  // result again.
  lemma RepeatedResult<V(!new), E(!new)>(c: Config<V, E>) returns (run: seq<State<V, E>>)
    requires |c.outcomes| == 2
    ensures IsRun(c, 1, run)
    ensures run[|run| - 1].collection == [0] && |run[|run| - 1].readers| == 1
    ensures run[|run| - 1].readers[0].pass.HandedOut() == [0, 0]
  {
    run := FirstAppended(c);
    hide *;
    var s := run[|run| - 1];
    var r := ReadAgain();
    ReadNext(c, run, s, r[0], r[1]);
    run := run + [s.(readers := [r[1]])];
    ReadNext(c, run, s, r[1], r[2]);
    run := run + [s.(readers := [r[2]])];
    ReadNext(c, run, s, r[2], r[3]);
    run := run + [s.(readers := [r[3]])];
    ReadNext(c, run, s, r[3], r[4]);
    run := run + [s.(readers := [r[4]])];
  }

  // A new iterator, one result of two: it reads, waits, gives up, and reads again.
  lemma ReadAgain() returns (r: seq<Reader>)
    ensures |r| == 5 && r[0] == NewReader() && r[4].pass.HandedOut() == [0, 0]
    ensures forall i :: 0 <= i < 4 ==> r[i + 1] == NextReader([0], 2, r[i])
  {
    r := [NewReader(), Reader(1, false, Pass([], [0]), []), Reader(1, true, Pass([], [0]), []),
          Reader(0, false, Pass([[0]], []), []), Reader(1, false, Pass([[0]], [0]), [])];
    ConcatAppend([], [0]);
    assert [[0]] == [] + [[0]];
  }

  lemma ReadNext<V(!new), E(!new)>(c: Config<V, E>, run: seq<State<V, E>>, s: State<V, E>, r: Reader, q: Reader)
    requires IsRun(c, 1, run) && run[|run| - 1] == s.(readers := [r]) && Shape(c, s)
    requires |c.outcomes| == 2 && s.collection == [0] && q == NextReader([0], 2, r)
    ensures IsRun(c, 1, run + [s.(readers := [q])])
  {
    hide NextReader, IsRun, JobStep;
    assert ReadStep(c, s.(readers := [r]), s.(readers := [q]), 0);
    Extended(c, 1, run, s.(readers := [q]));
  }

  // Job 0 has appended its result, and nothing else has happened.
  lemma FirstAppended<V(!new), E(!new)>(c: Config<V, E>) returns (run: seq<State<V, E>>)
    requires |c.outcomes| == 2
    ensures IsRun(c, 1, run)
    ensures var s := run[|run| - 1]; Shape(c, s) && s.collection == [0] && s.readers == [NewReader()]
  {
    var s := Init(c, 1);
    run := [s];
    var t := s.(data := s.data[0 := Some(c.outcomes[0])], pc := s.pc[0 := Written]);
    assert JobStep(c, s, t, 0);
    Extended(c, 1, run, t);
    run := run + [t];
    var u := t.(event := t.event[0 := true], pc := t.pc[0 := Set]);
    assert JobStep(c, t, u, 0);
    Extended(c, 1, run, u);
    run := run + [u];
    var v := u.(collection := [0], pc := u.pc[0 := Reported(true)]);
    assert JobStep(c, u, v, 0);
    Extended(c, 1, run, v);
    run := run + [v];
  }
}
