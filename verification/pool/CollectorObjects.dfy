// The objects of the pool. A worker advances through a job one atomic step at a time; each step refines a step of
// the protocol of its collector.
module CollectorObjects {
  import opened Jobs
  import opened Options
  import O = OrderedCollector
  import U = UnorderedCollector

  // ApplyResult: what a call ended with, once its event is set.
  class ApplyResult<T> {
    var data: Option<T>
    var event: bool

    constructor ()
      ensures data == None && !event
    {
      data, event := None, false;
    }

    // _set_value and _set_exception, up to the event: the result must not be ready.
    method Store(outcome: T)
      requires !event
      modifies this`data
      ensures data == Some(outcome)
    {
      data := Some(outcome);
    }

    method Signal()
      modifies this`event
      ensures event
    {
      event := true;
    }
  }

  class OrderedResultCollector<V(!new), E(!new)> {
    var results: seq<ApplyResult<Outcome<V, E>>>
    var remaining: int
    const asIterator: bool
    const toNotify: ApplyResult?<Note<V, E>>

    constructor (toNotify: ApplyResult?<Note<V, E>>, asIterator: bool)
      requires toNotify != null ==> toNotify.data == None && !toNotify.event
      ensures results == [] && Shows(Empty(), O.Init(Empty())) && this.toNotify == toNotify && this.asIterator == asIterator
    {
      results, remaining := [], 0;
      this.asIterator, this.toNotify := asIterator, toNotify;
    }

    // A pool without jobs.
    ghost function Empty(): O.Config<V, E> {
      O.Config([], asIterator, toNotify != null)
    }

    // Before any job runs: the objects are in the first state of the protocol, now for one more job.
    method RegisterResult(result: ApplyResult<Outcome<V, E>>, ghost c: O.Config<V, E>, ghost outcome: Outcome<V, E>)
      requires Shows(c, O.Init(c)) && result.data == None && !result.event
      requires result !in results && result as object != toNotify as object?
      modifies this
      ensures results == old(results) + [result]
      ensures var d := c.(outcomes := c.outcomes + [outcome]); Shows(d, O.Init(d))
    {
      results := results + [result];
      remaining := remaining + 1;
    }

    // The objects are in the state s of the protocol.
    ghost predicate Shows(c: O.Config<V, E>, s: O.State<V, E>)
      reads this, results, toNotify
    {
      O.Shape(c, s) && |results| == |c.outcomes| && c.asIterator == asIterator &&
      (c.hasTarget <==> toNotify != null) &&
      (forall i :: 0 <= i < |results| ==> results[i].data == s.data[i] && results[i].event == s.event[i]) &&
      (forall i, j :: 0 <= i < j < |results| ==> results[i] != results[j]) &&
      (forall i :: 0 <= i < |results| ==> results[i] as object != toNotify as object?) &&
      remaining == s.remaining &&
      (toNotify != null ==> toNotify.data == s.target && toNotify.event == s.targetEvent)
    }

    // The locked part of notify_ready: job number `job` counts down. It learns whether no other has done so before,
    // and whether all others have.
    method CountDown(ghost c: O.Config<V, E>, ghost s: O.State<V, E>, ghost job: nat)
      returns (gotFirst: bool, gotLast: bool, ghost t: O.State<V, E>)
      requires O.Inv(c, s) && Shows(c, s) && job < |s.pc| && s.pc[job].Set?
      modifies this`remaining
      ensures gotFirst <==> forall i :: 0 <= i < |s.pc| ==> !HasReported(s.pc[i])
      ensures gotLast <==> forall i :: 0 <= i < |s.pc| && i != job ==> HasReported(s.pc[i])
      ensures O.Step(c, s, t, job) && t.pc == s.pc[job := Reported(O.Turn(gotFirst, gotLast))] && Shows(c, t)
    {
      O.AssertsHold(c, s, job);
      assert remaining > 0;
      O.CountingTells(c, s, job);
      hide O.Inv, HasReported;
      gotFirst := |results| == remaining;
      remaining := remaining - 1;
      gotLast := remaining == 0;
      t := s.(remaining := s.remaining - 1, order := s.order + [job],
              pc := s.pc[job := Reported(O.Turn(gotFirst, gotLast))]);
    }

    // The list of all values; the first result that is not ready, or has an exception, ends it.
    method Gather(ghost data: seq<Option<Outcome<V, E>>>, ghost event: seq<bool>) returns (note: Note<V, E>)
      requires |data| == |event| == |results|
      requires forall i :: 0 <= i < |results| ==> results[i].data == data[i] && results[i].event == event[i]
      ensures note == O.Gathered(data, event, |results|)
    {
      var list: seq<V> := [];
      for i := 0 to |results|
        invariant O.Gathered(data, event, i) == ListOf(list)
      {
        var r := results[i];
        if !r.event || r.data.None? {
          note := TimedOut;
          Ends(data, event, i + 1, |results|);
          return;
        }
        match r.data.value {
          case Value(v) =>
            list := list + [v];
          case Raised(e) =>
            note := Failed(e);
            Ends(data, event, i + 1, |results|);
            return;
        }
      }
      note := ListOf(list);
    }

    lemma {:induction false} Ends(data: seq<Option<Outcome<V, E>>>, event: seq<bool>, i: nat, n: nat)
      requires i <= n <= |data| == |event| && !O.Gathered(data, event, i).ListOf?
      ensures O.Gathered(data, event, n) == O.Gathered(data, event, i)
    {
      if i < n {
        Ends(data, event, i, n - 1);
      }
    }
  }

  // A worker in the middle of Job.__call__ for job number `job`.
  class Worker<V(!new), E(!new)> {
    const job: nat
    const outcome: Outcome<V, E>
    const collector: OrderedResultCollector<V, E>
    var pc: Pc<O.Turn>

    constructor (job: nat, outcome: Outcome<V, E>, collector: OrderedResultCollector<V, E>)
      ensures this.job == job && this.outcome == outcome && this.collector == collector && pc == Waiting
    {
      this.job, this.outcome, this.collector, this.pc := job, outcome, collector, Waiting;
    }

    ghost predicate At(c: O.Config<V, E>, s: O.State<V, E>)
      reads this, collector, collector.results, collector.toNotify
    {
      collector.Shows(c, s) && job < |c.outcomes| && outcome == c.outcomes[job] && pc == s.pc[job]
    }

    // The next atomic step. In a state that the protocol can reach, none of the assertions of the objects fails.
    method Advance(ghost c: O.Config<V, E>, ghost s: O.State<V, E>) returns (ghost t: O.State<V, E>)
      requires O.Inv(c, s) && At(c, s) && !pc.Done?
      modifies this`pc, collector`remaining, collector.results, collector.toNotify
      ensures O.Step(c, s, t, job) && At(c, t)
    {
      O.AssertsHold(c, s, job);
      hide O.Inv;
      match pc {
        case Waiting =>
          t := Keep(c, s);
        case Written =>
          t := Announce(c, s);
        case Set =>
          var gotFirst, gotLast;
          gotFirst, gotLast, t := collector.CountDown(c, s, job);
          pc := Reported(O.Turn(gotFirst, gotLast));
        case Reported(found) =>
          t := Notify(c, s, found.first, found.last);
        case Told =>
          ToldHasTarget(c, s, job);
          t := Finish(c, s);
      }
    }

    method Keep(ghost c: O.Config<V, E>, ghost s: O.State<V, E>) returns (ghost t: O.State<V, E>)
      requires At(c, s) && pc.Waiting? && O.Asserts(c, s, job)
      modifies this`pc, collector.results
      ensures O.Step(c, s, t, job) && At(c, t)
    {
      collector.results[job].Store(outcome);
      pc := Written;
      t := s.(data := s.data[job := Some(outcome)], pc := s.pc[job := Written]);
    }

    method Announce(ghost c: O.Config<V, E>, ghost s: O.State<V, E>) returns (ghost t: O.State<V, E>)
      requires At(c, s) && pc.Written?
      modifies this`pc, collector.results
      ensures O.Step(c, s, t, job) && At(c, t)
    {
      collector.results[job].Signal();
      pc := Set;
      t := s.(event := s.event[job := true], pc := s.pc[job := Set]);
    }

    method Finish(ghost c: O.Config<V, E>, ghost s: O.State<V, E>) returns (ghost t: O.State<V, E>)
      requires At(c, s) && pc.Told? && c.hasTarget
      modifies this`pc, collector.toNotify
      ensures O.Step(c, s, t, job) && At(c, t)
    {
      collector.toNotify.Signal();
      pc := Done;
      t := s.(targetEvent := true, pc := s.pc[job := Done]);
    }

    lemma ToldHasTarget(c: O.Config<V, E>, s: O.State<V, E>, j: nat)
      requires O.Inv(c, s) && j < |s.pc| && s.pc[j].Told?
      ensures c.hasTarget
    {
    }

    // The last part of notify_ready.
    method Notify(ghost c: O.Config<V, E>, ghost s: O.State<V, E>, gotFirst: bool, gotLast: bool)
      returns (ghost t: O.State<V, E>)
      requires At(c, s) && pc == Reported(O.Turn(gotFirst, gotLast)) && O.Asserts(c, s, job)
      modifies this`pc, collector.toNotify
      ensures O.Step(c, s, t, job) && At(c, t)
    {
      var target := collector.toNotify;
      if target != null && collector.asIterator && gotFirst {
        target.Store(Iterator);
        pc := Told;
        t := s.(target := Some(Iterator), writers := s.writers + [job], pc := s.pc[job := Told]);
      } else if target != null && !collector.asIterator && gotLast {
        var note := collector.Gather(s.data, s.event);
        target.Store(note);
        pc := Told;
        t := s.(target := Some(note), writers := s.writers + [job], pc := s.pc[job := Told]);
      } else {
        pc := Done;
        t := s.(pc := s.pc[job := Done]);
      }
    }
  }

  class UnorderedResultCollector<V(!new), E(!new)> {
    var collection: seq<ApplyResult<Outcome<V, E>>>
    var expected: nat

    constructor ()
      ensures collection == [] && expected == 0
    {
      collection, expected := [], 0;
    }

    method RegisterResult()
      modifies this`expected
      ensures expected == old(expected) + 1
    {
      expected := expected + 1;
    }

    // The collection is the one of the protocol, as results of its jobs.
    ghost predicate Shows(all: seq<ApplyResult<Outcome<V, E>>>, order: seq<nat>)
      reads this
    {
      |collection| == |order| && expected == |all| &&
      forall a :: 0 <= a < |order| ==> order[a] < |all| && collection[a] == all[order[a]]
    }

    // The locked part of notify_ready: job number `job` appends its result, and learns whether no other has done so.
    method Append(result: ApplyResult<Outcome<V, E>>, ghost all: seq<ApplyResult<Outcome<V, E>>>,
                  ghost c: U.Config<V, E>, ghost s: U.State<V, E>, ghost job: nat)
      returns (firstItem: bool, ghost t: U.State<V, E>)
      requires U.Inv(c, s) && Shows(all, s.collection)
      requires job < |s.pc| == |all| && s.pc[job].Set? && result == all[job]
      modifies this`collection
      ensures firstItem <==> forall i :: 0 <= i < |s.pc| ==> !HasReported(s.pc[i])
      ensures U.JobStep(c, s, t, job) && t.pc == s.pc[job := Reported(firstItem)] && Shows(all, t.collection)
    {
      U.AppendingTells(c, s);
      hide U.Inv, HasReported;
      collection := collection + [result];
      firstItem := |collection| == 1;
      t := s.(collection := s.collection + [job], pc := s.pc[job := Reported(firstItem)]);
    }

    // The locked part of _get_result, up to the wait.
    method GetResult(idx: nat, ghost all: seq<ApplyResult<Outcome<V, E>>>, ghost order: seq<nat>)
      returns (stop: bool, violation: bool, result: ApplyResult?<Outcome<V, E>>)
      requires Shows(all, order)
      ensures var found := U.GetResult(order, |all|, idx);
        && (stop <==> found.Stop?) && (violation <==> found.Violation?)
        && (if found.Item? then found.job < |all| && result == all[found.job] else result == null)
    {
      stop, violation, result := false, false, null;
      if idx >= expected {
        stop := true;
      } else if idx < |collection| {
        result := collection[idx];
      } else if idx != |collection| {
        violation := true;
      }
    }

    // The lookup behind the wait: without a result, the wait has expired.
    method GetAfterWait(idx: nat, ghost all: seq<ApplyResult<Outcome<V, E>>>, ghost order: seq<nat>)
      returns (result: ApplyResult?<Outcome<V, E>>)
      requires Shows(all, order)
      ensures if idx < |order| then order[idx] < |all| && result == all[order[idx]] else result == null
    {
      result := if idx < |collection| then collection[idx] else null;
    }
  }

  // CollectorIterator, over an unordered collector.
  class CollectorIterator<V(!new), E(!new)> {
    const collector: UnorderedResultCollector<V, E>
    var idx: nat

    constructor (collector: UnorderedResultCollector<V, E>)
      ensures idx == 0 && this.collector == collector
    {
      this.collector, idx := collector, 0;
    }

    // next, up to the wait: it stops, returns a result, or has to wait.
    method Next(ghost all: seq<ApplyResult<Outcome<V, E>>>, ghost order: seq<nat>, ghost r: U.Reader)
      returns (stop: bool, result: ApplyResult?<Outcome<V, E>>)
      requires collector.Shows(all, order) && r.idx == idx && !r.blocked
      modifies this`idx
      ensures var q := U.NextReader(order, |all|, r);
        && idx == q.idx && (q.blocked <==> !stop && result == null)
        && (result != null ==> q.pass.yielded != [] && q.pass.yielded[|q.pass.yielded| - 1] < |all| &&
                               result == all[q.pass.yielded[|q.pass.yielded| - 1]])
      ensures stop <==> U.GetResult(order, |all|, r.idx) in {U.Stop, U.Violation}
    {
      var violation;
      stop, violation, result := collector.GetResult(idx, all, order);
      if stop || violation {
        stop := true;
        idx := 0;
      } else if result != null {
        idx := idx + 1;
      }
    }

    // The rest of a call of next that had to wait.
    method Resume(ghost all: seq<ApplyResult<Outcome<V, E>>>, ghost order: seq<nat>, ghost r: U.Reader)
      returns (expired: bool, result: ApplyResult?<Outcome<V, E>>)
      requires collector.Shows(all, order) && r.idx == idx && r.blocked
      modifies this`idx
      ensures var q := U.NextReader(order, |all|, r);
        && idx == q.idx && (expired <==> result == null) && (expired ==> q == U.Expires(r))
        && (!expired ==> r.idx < |order| && order[r.idx] < |all| && q == U.Yields(r, order[r.idx]) &&
                         result == all[order[r.idx]])
    {
      result := collector.GetAfterWait(idx, all, order);
      expired := result == null;
      idx := if expired then 0 else idx + 1;
    }
  }
}
