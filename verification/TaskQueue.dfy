/** The per-connection task queue: one task in flight, a wake-up flag, and completion by
  removing the head. */
module TaskQueueModel {
  import opened Words
  import opened TaskTag

  /** A response has come to the task at one position, and the task at another was taken. */
  datatype Answer = Answer(position: nat, taken: nat)

  /** The queue with its history: all tags ever queued, how many have left, the positions of those
    handed to the driver, in the order in which they were, those whose tasks have been reported to
    the driver stack, and the responses that have come. */
  datatype Queue = Queue(
    queue: seq<Tag>, newTask: bool, enabled: bool,
    entered: seq<Tag>, removed: nat, started: seq<nat>, settled: seq<nat>, answers: seq<Answer>)

  /** Why the current task is completed: a response to the task at some position, the time-out of such
    a task, a drain, or the response to a management function, which is never queued. */
  datatype Cause = ResponseTo(position: nat) | TimeoutOf(position: nat) | DrainRound | Management

  /** The task that is reported: the one answered or timed out, or the head that a drain takes, unless
    it is tag 0, which ends the drain. */
  function Settles(q: Queue, cause: Cause): seq<nat> {
    match cause
    case ResponseTo(p) => [p]
    case TimeoutOf(p) => [p]
    case DrainRound => if q.queue != [] && q.queue[0] != 0 then [q.removed] else []
    case Management => []
  }

  datatype Event =
    | QueueTask(tag: Tag) | CompleteCurrentTask(cause: Cause) | CheckForWork | Clear | Enable | Disable

  const EMPTY: Queue := Queue([], false, true, [], 0, [], [], [])

  function RemoveHead(q: Queue): Queue {
    if q.queue == [] then q
    else q.(queue := q.queue[1..], removed := q.removed + 1, newTask := q.newTask || |q.queue| > 1)
  }

  function Step(q: Queue, e: Event): Queue {
    match e
    case QueueTask(tag) =>
      q.(queue := q.queue + [tag], entered := q.entered + [tag],
         newTask := q.newTask || q.queue == [])
    case CompleteCurrentTask(cause) =>
      RemoveHead(q).(
        settled := q.settled + Settles(q, cause),
        answers := if cause.ResponseTo? then q.answers + [Answer(cause.position, q.removed)] else q.answers)
    case CheckForWork =>
      if !q.enabled || !q.newTask then q
      else if q.queue == [] then q.(newTask := false)
      else q.(newTask := false, started := q.started + [q.removed])
    case Clear => q.(enabled := false, queue := [], removed := q.removed + |q.queue|)
    case Enable => q.(enabled := true)
    case Disable => q.(enabled := false)
  }

  function Run(q: Queue, es: seq<Event>): Queue
    decreases |es|
  {
    if es == [] then q else Run(Step(q, es[0]), es[1..])
  }

  predicate HeadStarted(q: Queue) { q.removed in q.started }

  /** Starts happen in queue order and at most once, nothing behind the head has been started, and
    a waiting task is either flagged for the work loop or already started. */
  ghost predicate Inv(q: Queue) {
    && q.removed <= |q.entered| && q.queue == q.entered[q.removed..]
    && (forall i, j :: 0 <= i < j < |q.started| ==> q.started[i] < q.started[j])
    && (forall p :: p in q.started ==> p <= q.removed && p < |q.entered|)
    && (q.queue != [] ==> (q.newTask <==> !HeadStarted(q)))
  }

  lemma HeadRemoved(q: Queue)
    requires Inv(q)
    ensures Inv(RemoveHead(q))
  {
    if q.queue != [] {
      assert q.entered[q.removed..][1..] == q.entered[q.removed + 1..];
      assert q.removed + 1 !in q.started;
    }
  }

  lemma StepKeepsInv(q: Queue, e: Event)
    requires Inv(q)
    ensures Inv(Step(q, e))
  {
    var r := Step(q, e);
    match e
    case QueueTask(tag) =>
      if q.queue == [] {
        assert r.removed == |q.entered|;
      }
      assert HeadStarted(r) == HeadStarted(q);
    case CompleteCurrentTask(cause) =>
      HeadRemoved(q);
    case CheckForWork =>
      if q.enabled && q.newTask && q.queue != [] {
        assert !HeadStarted(q);
        forall i, j | 0 <= i < j < |r.started|
          ensures r.started[i] < r.started[j]
        {
          if j == |q.started| {
            assert q.started[i] in q.started;
          }
        }
        assert r.started[|q.started|] == r.removed;
      }
    case Clear =>
    case Enable =>
    case Disable =>
  }

  lemma {:induction false} RunKeepsInv(q: Queue, es: seq<Event>)
    requires Inv(q)
    ensures Inv(Run(q, es))
    decreases |es|
  {
    if es != [] {
      StepKeepsInv(q, es[0]);
      RunKeepsInv(Step(q, es[0]), es[1..]);
    }
  }

  /** Over every run, started tasks are a rising sequence of queue positions (first in, first out),
    and a non-empty queue is either flagged with an unstarted head or has a started head. */
  lemma FifoAndNoLostWakeUp(es: seq<Event>)
    ensures var q := Run(EMPTY, es);
            && (forall i, j :: 0 <= i < j < |q.started| ==> q.started[i] < q.started[j])
            && (forall p :: p in q.started ==> p <= q.removed && p < |q.entered|)
            && (q.queue != [] ==> (q.newTask && !HeadStarted(q)) || (!q.newTask && HeadStarted(q)))
  {
    RunKeepsInv(EMPTY, es);
  }

  /** A queued task that nothing precedes is started by the next check of an enabled queue, and
    then waits: further checks change nothing until it is completed. */
  lemma NextCheckStarts(q: Queue)
    requires Inv(q) && q.enabled && q.queue != []
    ensures var r := Step(q, CheckForWork); HeadStarted(r) && Step(r, CheckForWork) == r
  {
    var r := Step(q, CheckForWork);
    if q.newTask {
      assert r.started[|q.started|] == r.removed;
    }
  }

  predicate Removes(e: Event) { e.CompleteCurrentTask? || e.Clear? }

  lemma {:induction false} RunMonotone(q: Queue, es: seq<Event>)
    ensures q.removed <= Run(q, es).removed && q.entered <= Run(q, es).entered
    decreases |es|
  {
    if es != [] {
      RunMonotone(Step(q, es[0]), es[1..]);
    }
  }

  /** Completing the current task on a response takes out the task the response belongs to if and
    only if nothing has been removed since that task was started. */
  lemma {:induction false} ResponseTakesOwnTask(q: Queue, es: seq<Event>)
    requires Inv(q) && HeadStarted(q)
    ensures var r := Run(q, es);
            r.removed == q.removed <==> forall e :: e in es ==> !Removes(e)
    ensures var r := Run(q, es);
            r.removed == q.removed ==> r.queue != [] && r.queue[0] == q.queue[0] && HeadStarted(r)
    decreases |es|
  {
    assert q.removed < |q.entered|;
    if es != [] {
      var s := Step(q, es[0]);
      StepKeepsInv(q, es[0]);
      if Removes(es[0]) {
        RunMonotone(s, es[1..]);
      } else {
        assert HeadStarted(s);
        ResponseTakesOwnTask(s, es[1..]);
        assert s.queue[0] == q.queue[0];
      }
    }
  }

  // ----- Which task a response takes

  /** The task at position `p` has been started and not been reported.  Its response is the one that
    the driver will act on; a response to a task already reported finds no task and removes nothing. */
  predicate Awaiting(q: Queue, p: nat) { p in q.started && p !in q.settled }

  /** The target answers started tasks only, and tasks are reported once. */
  predicate Conforms(q: Queue, e: Event) {
    e.CompleteCurrentTask? ==>
      && (e.cause.ResponseTo? ==> Awaiting(q, e.cause.position))
      && (e.cause.TimeoutOf? ==> e.cause.position !in q.settled)
  }

  predicate ConformingRun(q: Queue, es: seq<Event>)
    decreases |es|
  {
    es == [] || (Conforms(q, es[0]) && ConformingRun(Step(q, es[0]), es[1..]))
  }

  predicate EachTookItsOwn(q: Queue) {
    forall k :: 0 <= k < |q.answers| ==> q.answers[k].position == q.answers[k].taken
  }

  function Respond(q: Queue, p: nat): Queue { Step(q, CompleteCurrentTask(ResponseTo(p))) }

  /** Each response has taken its own task, and so will the next one, whichever it is. */
  ghost predicate OwnAnswers(q: Queue) {
    EachTookItsOwn(q) && forall p {:trigger Awaiting(q, p)} :: Awaiting(q, p) ==> EachTookItsOwn(Respond(q, p))
  }

  /** The event removes the head, a started task, and leaves it unreported. */
  predicate Orphans(q: Queue, e: Event) {
    && Removes(e) && q.queue != [] && Awaiting(q, q.removed)
    && (e.CompleteCurrentTask? ==> q.removed !in Settles(q, e.cause))
  }

  /** A task that awaits its response is at the head. */
  ghost predicate HeadAwaits(q: Queue) {
    forall p {:trigger Awaiting(q, p)} :: Awaiting(q, p) ==> p == q.removed
  }

  lemma OwnIffHeadAwaits(q: Queue)
    requires EachTookItsOwn(q)
    ensures OwnAnswers(q) <==> HeadAwaits(q)
  {
    forall p | Awaiting(q, p)
      ensures EachTookItsOwn(Respond(q, p)) <==> p == q.removed
    {
      assert Respond(q, p).answers[|q.answers|] == Answer(p, q.removed);
    }
  }

  lemma StepOrphansOrNot(q: Queue, e: Event)
    requires Inv(q) && HeadAwaits(q) && EachTookItsOwn(q) && Conforms(q, e)
    ensures EachTookItsOwn(Step(q, e)) && (HeadAwaits(Step(q, e)) <==> !Orphans(q, e))
  {
    hide Settles;
    var r := Step(q, e);
    if Orphans(q, e) {
      assert Awaiting(r, q.removed) && q.removed < r.removed;
    } else {
      forall p | Awaiting(r, p)
        ensures p == r.removed
      {
        if p in q.started {
          assert Awaiting(q, p);
        }
      }
    }
  }

  ghost predicate AlwaysOwnAnswers(q: Queue, es: seq<Event>)
    decreases |es|
  {
    OwnAnswers(q) && (es == [] || AlwaysOwnAnswers(Step(q, es[0]), es[1..]))
  }

  predicate NeverOrphans(q: Queue, es: seq<Event>)
    decreases |es|
  {
    es == [] || (!Orphans(q, es[0]) && NeverOrphans(Step(q, es[0]), es[1..]))
  }

  /** Over every run with a target that answers started tasks once, each response takes its own task,
    whichever comes next, if and only if no removal leaves a started task unreported: no management
    response, no clearing, no time-out of another task, and no drain that ends on tag 0 does. */
  lemma {:induction false} ResponsesTakeTheirOwnIff(q: Queue, es: seq<Event>)
    requires Inv(q) && HeadAwaits(q) && EachTookItsOwn(q) && ConformingRun(q, es)
    ensures AlwaysOwnAnswers(q, es) <==> NeverOrphans(q, es)
    ensures NeverOrphans(q, es) ==> EachTookItsOwn(Run(q, es))
    decreases |es|
  {
    hide Step, Inv, EachTookItsOwn, Orphans, Conforms;
    OwnIffHeadAwaits(q);
    if es != [] {
      var r := Step(q, es[0]);
      StepKeepsInv(q, es[0]);
      StepOrphansOrNot(q, es[0]);
      OwnIffHeadAwaits(r);
      if HeadAwaits(r) {
        ResponsesTakeTheirOwnIff(r, es[1..]);
      }
    }
  }

  /** The same from the start. */
  lemma EveryResponseTakesItsOwnIff(es: seq<Event>)
    requires ConformingRun(EMPTY, es)
    ensures AlwaysOwnAnswers(EMPTY, es) <==> NeverOrphans(EMPTY, es)
    ensures NeverOrphans(EMPTY, es) ==> EachTookItsOwn(Run(EMPTY, es))
  {
    ResponsesTakeTheirOwnIff(EMPTY, es);
  }

  /** A task-management response removes a task it never queued: here it takes the second task, which
    has been started and still awaits its own response; that response then takes the third. */
  lemma TaskManagementTakesForeignTask()
    ensures var es := [QueueTask(1), QueueTask(2), QueueTask(3), CheckForWork,
                       CompleteCurrentTask(ResponseTo(0)), CheckForWork];
            var q := Run(EMPTY, es + [CompleteCurrentTask(Management)]);
            && Awaiting(q, 1) && q.queue == [3]
            && Respond(q, 1).answers == [Answer(0, 0), Answer(1, 2)] && Respond(q, 1).queue == []
  {
    var first, second := CompleteCurrentTask(ResponseTo(0)), CompleteCurrentTask(Management);
    hide Run;
    var q6 := SecondStarted();
    var q7 := Step(q6, second);
    assert q7 == Queue([3], true, true, [1, 2, 3], 2, [0, 1], [0], [Answer(0, 0)]);
    assert q7.started[1] == 1;
    RunOneMore(EMPTY, [QueueTask(1), QueueTask(2), QueueTask(3), CheckForWork, first, CheckForWork], second);
    assert Respond(q7, 1).answers == [Answer(0, 0), Answer(1, 2)];
  }

  /** Three tasks, the first of them answered, the second started. */
  lemma SecondStarted() returns (q: Queue)
    ensures q == Run(EMPTY, [QueueTask(1), QueueTask(2), QueueTask(3), CheckForWork,
                             CompleteCurrentTask(ResponseTo(0)), CheckForWork])
    ensures q == Queue([2, 3], false, true, [1, 2, 3], 1, [0, 1], [0], [Answer(0, 0)])
  {
    var first := CompleteCurrentTask(ResponseTo(0));
    var q1 := Step(EMPTY, QueueTask(1));
    var q2 := Step(q1, QueueTask(2));
    var q3 := Step(q2, QueueTask(3));
    assert q3 == Queue([1, 2, 3], true, true, [1, 2, 3], 0, [], [], []);
    var q4 := Step(q3, CheckForWork);
    var q5 := Step(q4, first);
    assert q5 == Queue([2, 3], true, true, [1, 2, 3], 1, [0], [0], [Answer(0, 0)]);
    q := Step(q5, CheckForWork);
    RunCons(EMPTY, QueueTask(1), [QueueTask(2), QueueTask(3), CheckForWork, first, CheckForWork]);
    RunCons(q1, QueueTask(2), [QueueTask(3), CheckForWork, first, CheckForWork]);
    RunCons(q2, QueueTask(3), [CheckForWork, first, CheckForWork]);
    RunCons(q3, CheckForWork, [first, CheckForWork]);
    RunCons(q4, first, [CheckForWork]);
    RunCons(q5, CheckForWork, []);
  }

  lemma {:induction false} RunOneMore(q: Queue, es: seq<Event>, e: Event)
    ensures Run(q, es + [e]) == Step(Run(q, es), e)
    decreases |es|
  {
    hide Step;
    if es == [] {
      RunCons(q, e, []);
    } else {
      assert (es + [e])[1..] == es[1..] + [e];
      RunOneMore(Step(q, es[0]), es[1..], e);
    }
  }

  lemma RunCons(q: Queue, e: Event, es: seq<Event>)
    ensures Run(q, [e] + es) == Run(Step(q, e), es)
    ensures Run(q, []) == q
    ensures [e] + [] == [e]
  {
    hide Step;
    assert ([e] + es)[1..] == es;
  }

  /** The queue object.  `home` tells queues of different connections apart. */
  class TaskQueue {
    ghost const home: (nat, nat)
    var queue: seq<Tag>
    var newTask: bool
    var enabled: bool
    ghost var entered: seq<Tag>
    ghost var removed: nat
    ghost var started: seq<nat>
    ghost var settled: seq<nat>
    ghost var answers: seq<Answer>

    ghost function View(): Queue
      reads this
    {
      Queue(queue, newTask, enabled, entered, removed, started, settled, answers)
    }

    ghost predicate Valid()
      reads this
    {
      Inv(View())
    }

    constructor (ghost home: (nat, nat))
      ensures Valid() && View() == EMPTY.(enabled := false) && this.home == home
    {
      this.home := home;
      queue, newTask, enabled := [], false, false;
      entered, removed, started, settled, answers := [], 0, [], [], [];
    }

    method QueueTask(tag: Tag)
      requires Valid()
      modifies this
      ensures Valid() && View() == Step(old(View()), Event.QueueTask(tag))
      ensures queue == old(queue) + [tag] && enabled == old(enabled)
    {
      StepKeepsInv(View(), Event.QueueTask(tag));
      var firstTaskInQueue := queue == [];
      queue := queue + [tag];
      entered := entered + [tag];
      if firstTaskInQueue {
        newTask := true;
      }
    }

    method CompleteCurrentTask(ghost cause: Cause) returns (taskTag: Tag)
      requires Valid()
      modifies this
      ensures Valid() && View() == Step(old(View()), Event.CompleteCurrentTask(cause))
      ensures taskTag == if old(queue) == [] then 0 else old(queue)[0]
      ensures queue == (if old(queue) == [] then [] else old(queue)[1..]) && enabled == old(enabled)
    {
      StepKeepsInv(View(), Event.CompleteCurrentTask(cause));
      settled := settled + Settles(View(), cause);
      if cause.ResponseTo? {
        answers := answers + [Answer(cause.position, removed)];
      }
      if queue == [] {
        return 0;
      }
      taskTag := queue[0];
      queue := queue[1..];
      removed := removed + 1;
      if queue != [] {
        newTask := true;
      }
    }

    /** Hands the head to the driver, if the queue is enabled and flagged. */
    method CheckForWork() returns (task: Option<Tag>)
      requires Valid()
      modifies this
      ensures Valid() && View() == Step(old(View()), Event.CheckForWork)
      ensures task == if old(enabled && newTask && queue != []) then Some(old(queue)[0]) else None
    {
      StepKeepsInv(View(), Event.CheckForWork);
      if !enabled || !newTask {
        return None;
      }
      newTask := false;
      if queue == [] {
        return None;
      }
      started := started + [removed];
      return Some(queue[0]);
    }

    method ClearTasksFromQueue()
      requires Valid()
      modifies this
      ensures Valid() && View() == Step(old(View()), Event.Clear)
    {
      ghost var before := View();
      StepKeepsInv(before, Event.Clear);
      enabled := false;
      while queue != []
        invariant View() == before.(enabled := false, queue := queue, removed := removed)
        invariant removed + |queue| == before.removed + |before.queue|
        decreases |queue|
      {
        queue := queue[1..];
        removed := removed + 1;
      }
    }

    method SetEnabled(on: bool)
      requires Valid()
      modifies this`enabled
      ensures Valid() && View() == old(View()).(enabled := on)
    {
      enabled := on;
    }
  }
}
