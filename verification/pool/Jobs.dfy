// Jobs of the pool: what they produce, and how they are cut into sequences.
module Jobs {
  import opened FiniteSets
  import opened Options
  import opened Sequences

  // What the call of a function ends with.
  datatype Outcome<V, E> = Value(v: V) | Raised(e: E)

  // What a result is set to when it stands for many others.
  datatype Note<V, E> = Iterator | ListOf(values: seq<V>) | Failed(e: E) | TimedOut

  // Where a worker is with a job. Every change of this counter is one atomic step.
  datatype Pc<K> =
    | Waiting             // the function has not returned yet
    | Written             // outcome stored, event not set
    | Set                 // event set, collector not told
    | Reported(found: K)  // the locked part of notify_ready is over, with what it found
    | Told                // notified result written, its event not set
    | Done

  predicate HasReported<K>(p: Pc<K>) {
    p.Reported? || p.Told? || p.Done?
  }

  // Results are set by their own jobs.
  ghost predicate ResultsMatch<V, E, K>(outcomes: seq<Outcome<V, E>>, pc: seq<Pc<K>>, data: seq<Option<Outcome<V, E>>>,
                                        event: seq<bool>)
    requires |pc| == |data| == |event| == |outcomes|
  {
    forall j :: 0 <= j < |pc| ==>
      data[j] == (if pc[j].Waiting? then None else Some(outcomes[j])) &&
      (event[j] <==> !pc[j].Waiting? && !pc[j].Written?)
  }

  ghost predicate AllDone<K>(pc: seq<Pc<K>>) {
    forall j :: 0 <= j < |pc| ==> pc[j].Done?
  }

  // The first n calls of a sequential map: the list of the values, or the first exception.
  function MapResult<V, E>(outcomes: seq<Outcome<V, E>>, n: nat): Note<V, E>
    requires n <= |outcomes|
  {
    if n == 0 then ListOf([])
    else
      match MapResult(outcomes, n - 1)
      case ListOf(values) =>
        (match outcomes[n - 1]
         case Value(v) => ListOf(values + [v])
         case Raised(e) => Failed(e))
      case other => other
  }

  // A map that succeeds has one value for each argument, in order; one that fails does so with the exception of
  // the first argument that raises one.
  lemma {:induction false} MapResultMeans<V, E>(outcomes: seq<Outcome<V, E>>, n: nat)
    requires n <= |outcomes|
    ensures var r := MapResult(outcomes, n);
      match r
      case ListOf(values) => |values| == n && forall i :: 0 <= i < n ==> outcomes[i] == Value(values[i])
      case Failed(e) => exists k :: 0 <= k < n && outcomes[k] == Raised(e) && forall i :: 0 <= i < k ==> outcomes[i].Value?
      case Iterator => false
      case TimedOut => false
  {
    hide MapResult;
    MapStep(outcomes, n);
    if n > 0 {
      MapResultMeans(outcomes, n - 1);
      var before := MapResult(outcomes, n - 1);
      if before.Failed? {
        var k :| 0 <= k < n - 1 && outcomes[k] == Raised(before.e) && forall i :: 0 <= i < k ==> outcomes[i].Value?;
        assert outcomes[k] == Raised(before.e);
      } else if outcomes[n - 1].Raised? {
        assert forall i :: 0 <= i < n - 1 ==> outcomes[i].Value?;
      }
    }
  }

  lemma MapStep<V, E>(outcomes: seq<Outcome<V, E>>, n: nat)
    requires n <= |outcomes|
    ensures n == 0 ==> MapResult(outcomes, n) == ListOf([])
    ensures n > 0 ==>
              var before := MapResult(outcomes, n - 1);
              MapResult(outcomes, n) ==
              if !before.ListOf? then before
              else if outcomes[n - 1].Value? then ListOf(before.values + [outcomes[n - 1].v])
              else Failed(outcomes[n - 1].e)
  {
  }

  // ----- Sequences of jobs

  // `chunksize or 1`: no size, and the size 0, mean 1.
  function ChunkOf(chunksize: Option<int>): (c: int)
    ensures c > 0 <==> (chunksize.Some? ==> chunksize.value >= 0)
  {
    if chunksize.None? || chunksize.value == 0 then 1 else chunksize.value
  }

  // What one round of the outer loop takes from the arguments that are left, and whether it finds their end.
  function Taken<A>(chunk: int, rest: seq<A>): seq<A> {
    if chunk <= 0 then [] else if chunk <= |rest| then rest[..chunk] else rest
  }

  predicate FindsEnd<A>(chunk: int, rest: seq<A>) {
    chunk > |rest|
  }

  // How far the outer loop has come.
  datatype Progress<A> = Progress(next: nat, exitLoop: bool, sequences: seq<seq<A>>)

  // One round.
  function Round<A>(args: seq<A>, chunk: int, p: Progress<A>): (q: Progress<A>)
    requires p.next <= |args|
    ensures q.next <= |args|
  {
    var jobs := Taken(chunk, args[p.next..]);
    Progress(p.next + |jobs|, FindsEnd(chunk, args[p.next..]), p.sequences + if jobs == [] then [] else [jobs])
  }

  // After n rounds, or fewer if the loop ends before.
  function Rounds<A>(args: seq<A>, chunk: int, n: nat): (p: Progress<A>)
    ensures p.next <= |args|
  {
    if n == 0 then Progress(0, false, [])
    else
      var p := Rounds(args, chunk, n - 1);
      if p.exitLoop then p else Round(args, chunk, p)
  }

  lemma {:induction false} Proceeds<A>(args: seq<A>, chunk: int, n: nat)
    requires chunk > 0
    ensures Rounds(args, chunk, n).exitLoop || Rounds(args, chunk, n).next >= n
  {
    if n > 0 {
      Proceeds(args, chunk, n - 1);
    }
  }

  lemma {:induction false} StandsStill<A>(args: seq<A>, chunk: int, n: nat)
    requires chunk <= 0
    ensures Rounds(args, chunk, n) == Progress(0, false, [])
  {
    if n > 0 {
      StandsStill(args, chunk, n - 1);
    }
  }

  // The outer loop ends, whatever the arguments are, if and only if the size is not negative. With a negative size no
  // number of rounds changes anything.
  lemma EndsExactly<A>(args: seq<A>, chunksize: Option<int>)
    ensures var chunk := ChunkOf(chunksize);
      && ((exists n: nat :: Rounds(args, chunk, n).exitLoop) <==> !(chunksize.Some? && chunksize.value < 0))
      && (chunksize.Some? && chunksize.value < 0 ==> forall n: nat :: Rounds(args, chunk, n) == Progress(0, false, []))
  {
    var chunk := ChunkOf(chunksize);
    if chunk > 0 {
      Proceeds(args, chunk, |args| + 1);
      assert Rounds(args, chunk, |args| + 1).exitLoop;
    } else {
      forall n: nat
        ensures Rounds(args, chunk, n) == Progress(0, false, [])
      {
        StandsStill(args, chunk, n);
      }
    }
  }

  // The inner loop: up to `chunk` arguments.
  method TakeChunk<A>(args: seq<A>, start: nat, chunk: int) returns (jobs: seq<A>, next: nat, exitLoop: bool)
    requires start <= |args|
    ensures start <= next <= |args| && jobs == args[start..next]
    ensures jobs == Taken(chunk, args[start..])
    ensures exitLoop <==> FindsEnd(chunk, args[start..])
    ensures chunk > 0 ==> exitLoop || start < next
  {
    jobs, next, exitLoop := [], start, false;
    var k := 0;
    while k < chunk && !exitLoop
      invariant 0 <= k && next == start + |jobs| <= |args| && jobs == args[start..next]
      invariant k <= chunk || (k == 0 && chunk < 0)
      invariant |jobs| == k
      invariant exitLoop ==> next == |args| && k < chunk
      decreases !exitLoop, chunk - k
    {
      if next == |args| {
        exitLoop := true;
      } else {
        jobs := jobs + [args[next]];
        next := next + 1;
        k := k + 1;
      }
    }
  }

  // What the outer loop keeps: the sequences are the arguments so far, in order; they are full except for the last one.
  ghost predicate CutsInto<A>(args: seq<A>, chunk: int, p: Progress<A>) {
    p.next <= |args| && Concat(p.sequences) == args[..p.next] && (p.exitLoop ==> p.next == |args|) &&
    (forall i :: 0 <= i < |p.sequences| ==> 0 < |p.sequences[i]| <= chunk) &&
    (forall i :: 0 <= i < |p.sequences| - 1 ==> |p.sequences[i]| == chunk) &&
    (!p.exitLoop && p.sequences != [] ==> |p.sequences[|p.sequences| - 1]| == chunk) &&
    (p.sequences == [] <==> p.next == 0)
  }

  lemma {:induction false} RoundsCut<A>(args: seq<A>, chunk: int, n: nat)
    requires chunk > 0
    ensures CutsInto(args, chunk, Rounds(args, chunk, n))
  {
    hide CutsInto, Round, Rounds;
    RoundsStep(args, chunk, n);
    if n > 0 {
      RoundsCut(args, chunk, n - 1);
      var p := Rounds(args, chunk, n - 1);
      if !p.exitLoop {
        RoundCuts(args, chunk, p);
      }
    } else {
      NothingCut(args, chunk);
    }
  }

  lemma RoundsStep<A>(args: seq<A>, chunk: int, n: nat)
    ensures Rounds(args, chunk, 0) == Progress(0, false, [])
    ensures n > 0 ==>
              var p := Rounds(args, chunk, n - 1);
              Rounds(args, chunk, n) == if p.exitLoop then p else Round(args, chunk, p)
  {
  }

  lemma NothingCut<A>(args: seq<A>, chunk: int)
    ensures CutsInto(args, chunk, Progress(0, false, []))
  {
  }

  lemma RoundCuts<A>(args: seq<A>, chunk: int, p: Progress<A>)
    requires chunk > 0 && CutsInto(args, chunk, p) && !p.exitLoop
    ensures CutsInto(args, chunk, Round(args, chunk, p))
  {
    hide Concat;
    var jobs := Taken(chunk, args[p.next..]);
    var cut := p.sequences + if jobs == [] then [] else [jobs];
    assert args[..p.next + |jobs|] == args[..p.next] + jobs;
    if jobs == [] {
      assert cut == p.sequences;
    } else {
      ConcatAppend(p.sequences, jobs);
      assert forall i :: 0 <= i < |p.sequences| ==> |p.sequences[i]| == chunk;
    }
  }

  lemma CutsAll<A>(args: seq<A>, chunk: int, p: Progress<A>)
    requires CutsInto(args, chunk, p) && p.exitLoop
    ensures p.next == |args| && Concat(p.sequences) == args && (p.sequences == [] <==> args == [])
    ensures forall i :: 0 <= i < |p.sequences| ==> 0 < |p.sequences[i]| <= chunk
    ensures forall i :: 0 <= i < |p.sequences| - 1 ==> |p.sequences[i]| == chunk
  {
    assert args[..|args|] == args;
  }

  // _create_sequences: the arguments, in order, in sequences of the given size.
  method CreateSequences<A>(args: seq<A>, chunksize: Option<int>) returns (sequences: seq<seq<A>>)
    requires chunksize.Some? ==> chunksize.value >= 0
    ensures Concat(sequences) == args
    ensures chunksize == None || chunksize == Some(0) ==> forall i :: 0 <= i < |sequences| ==> |sequences[i]| == 1
    ensures chunksize.Some? && chunksize.value > 0 ==>
              (forall i :: 0 <= i < |sequences| ==> 0 < |sequences[i]| <= chunksize.value) &&
              forall i :: 0 <= i < |sequences| - 1 ==> |sequences[i]| == chunksize.value
    ensures sequences == [] <==> args == []
    ensures exists n: nat :: Rounds(args, ChunkOf(chunksize), n) == Progress(|args|, true, sequences)
  {
    hide Concat, Taken, FindsEnd, CutsInto, ChunkOf;
    var chunk := ChunkOf(chunksize);
    var next := 0;
    var exitLoop := false;
    sequences := [];
    ghost var n: nat := 0;
    while !exitLoop
      invariant next <= |args| && Rounds(args, chunk, n) == Progress(next, exitLoop, sequences)
      decreases !exitLoop, |args| - next
    {
      var jobs;
      jobs, next, exitLoop := TakeChunk(args, next, chunk);
      if jobs != [] {
        sequences := sequences + [jobs];
      }
      n := n + 1;
    }
    RoundsCut(args, chunk, n);
    CutsAll(args, chunk, Rounds(args, chunk, n));
    ChunkIs(chunksize);
  }

  lemma ChunkIs(chunksize: Option<int>)
    ensures ChunkOf(chunksize) == if chunksize == None || chunksize == Some(0) then 1 else chunksize.value
  {
  }

  // ----- Orders of jobs

  ghost predicate DistinctJobs(order: seq<nat>) {
    forall a, b :: 0 <= a < b < |order| ==> order[a] != order[b]
  }

  function JobSet(order: seq<nat>): set<nat> {
    set j | j in order
  }

  lemma {:induction false} SizeOfOrder(order: seq<nat>)
    requires DistinctJobs(order)
    ensures |JobSet(order)| == |order|
  {
    if order != [] {
      var n := |order| - 1;
      SizeOfOrder(order[..n]);
      assert order[n] !in order[..n];
      assert order == order[..n] + [order[n]];
      assert JobSet(order) == JobSet(order[..n]) + {order[n]};
    }
  }

  // When as many jobs as there are have counted down, all have.
  lemma AllCounted(order: seq<nat>, n: nat)
    requires DistinctJobs(order) && |order| == n && forall a :: 0 <= a < n ==> order[a] < n
    ensures forall j: nat :: j < n ==> j in order
  {
    SizeOfOrder(order);
    SubsetSize(JobSet(order), AllIndices(n));
    forall j: nat | j < n
      ensures j in order
    {
      assert j in AllIndices(n);
    }
  }

  // When all jobs have counted down, there are as many as there are jobs.
  lemma OrderOfAll(order: seq<nat>, n: nat)
    requires DistinctJobs(order) && (forall a :: 0 <= a < |order| ==> order[a] < n) && forall j: nat :: j < n ==> j in order
    ensures |order| == n
  {
    SizeOfOrder(order);
    forall j | j in JobSet(order)
      ensures j in AllIndices(n)
    {
      var a :| 0 <= a < |order| && order[a] == j;
    }
    assert JobSet(order) == AllIndices(n);
  }
}
