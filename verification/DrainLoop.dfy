/** The loop that empties a task queue when a connection is deactivated.  Completing a task may
  queue a latency probe behind the tasks still waiting, and tag 0 reads as "queue empty". */
module DrainLoop {
  import opened TaskTag
  import opened Words

  const WINDOW := 30

  /** The SCSI tasks outstanding at the driver stack, and the tags of tasks that transfer data. */
  datatype Tasks = Tasks(tags: set<Tag>, data: set<Tag>)

  const NO_OUTSTANDING := Tasks({}, {})

  function Done(tasks: Tasks, tag: Tag): Tasks { tasks.(tags := tasks.tags - {tag}) }

  datatype Drained = Drained(queue: seq<Tag>, tasks: Tasks, index: nat, reported: seq<Tag>)

  /** Completing `tag`: the task is gone, and every thirtieth data task queues a probe. */
  function AfterCompletion(queue: seq<Tag>, hasData: bool, index: nat): (seq<Tag>, nat) {
    if !hasData then (queue, index)
    else if index + 1 == WINDOW then (queue + [LATENCY_TAG], 0)
    else (queue, index + 1)
  }

  /** The loop, as a function of the queue, the outstanding tasks and the window index. */
  function Drain(queue: seq<Tag>, tasks: Tasks, index: nat): Drained
    decreases |tasks.tags|, |queue|
  {
    if queue == [] then Drained(queue, tasks, index, [])
    else
      var tag, rest := queue[0], queue[1..];
      if tag == 0 then Drained(rest, tasks, index, [])
      else if tag !in tasks.tags then Drain(rest, tasks, index)
      else
        var (q, i) := AfterCompletion(rest, tag in tasks.data, index);
        Smaller(tasks, tag);
        var d := Drain(q, Done(tasks, tag), i);
        d.(reported := [tag] + d.reported)
  }

  lemma DrainStep(queue: seq<Tag>, tasks: Tasks, index: nat)
    ensures queue == [] ==> Drain(queue, tasks, index) == Drained([], tasks, index, [])
    ensures queue != [] && queue[0] == 0 ==> Drain(queue, tasks, index) == Drained(queue[1..], tasks, index, [])
    ensures queue != [] && queue[0] != 0 && queue[0] !in tasks.tags ==>
              Drain(queue, tasks, index) == Drain(queue[1..], tasks, index)
    ensures queue != [] && queue[0] != 0 && queue[0] in tasks.tags ==>
              var (q, i) := AfterCompletion(queue[1..], queue[0] in tasks.data, index);
              var d := Drain(q, Done(tasks, queue[0]), i);
              Drain(queue, tasks, index) == d.(reported := [queue[0]] + d.reported)
  {}

  function AllDone(tasks: Tasks, tags: seq<Tag>): Tasks {
    tasks.(tags := tasks.tags - set t | t in tags)
  }

  lemma Smaller(tasks: Tasks, tag: Tag)
    requires tag in tasks.tags
    ensures |Done(tasks, tag).tags| < |tasks.tags|
  {
    assert tasks.tags == Done(tasks, tag).tags + {tag};
  }

  /** The part of the queue before the first tag 0. */
  function BeforeZero(queue: seq<Tag>): seq<Tag>
    decreases |queue|
  {
    if queue == [] || queue[0] == 0 then [] else [queue[0]] + BeforeZero(queue[1..])
  }

  function AfterZero(queue: seq<Tag>): seq<Tag>
    decreases |queue|
  {
    if queue == [] then [] else if queue[0] == 0 then queue[1..] else AfterZero(queue[1..])
  }

  /** How many of the tasks named in `tags`, each counted once, transfer data. */
  function DataTasks(tags: seq<Tag>, tasks: Tasks): nat
    decreases |tags|
  {
    if tags == [] then 0
    else if tags[0] in tasks.tags then
      (if tags[0] in tasks.data then 1 else 0) + DataTasks(tags[1..], Done(tasks, tags[0]))
    else DataTasks(tags[1..], tasks)
  }

  function Probes(n: nat): seq<Tag> {
    seq(n, _ => LATENCY_TAG)
  }

  lemma ProbeBehind(queue: seq<Tag>)
    ensures LATENCY_TAG != 0
    ensures 0 in queue <==> 0 in queue + [LATENCY_TAG]
    ensures BeforeZero(queue + [LATENCY_TAG]) ==
            if 0 in queue then BeforeZero(queue) else BeforeZero(queue) + [LATENCY_TAG]
    ensures 0 in queue ==> AfterZero(queue + [LATENCY_TAG]) == AfterZero(queue) + [LATENCY_TAG]
    decreases |queue|
  {
    hide BuildTag;
    ProbeNotZero();
    if queue != [] && queue[0] != 0 {
      assert (queue + [LATENCY_TAG])[1..] == queue[1..] + [LATENCY_TAG];
      ProbeBehind(queue[1..]);
    } else if queue != [] {
      assert (queue + [LATENCY_TAG])[1..] == queue[1..] + [LATENCY_TAG];
    } else {
      assert queue + [LATENCY_TAG] == [LATENCY_TAG];
    }
  }

  /** A probe goes by the tag with type 1, unit 0 and task 0. */
  lemma ProbeIs()
    ensures LATENCY_TAG == 0x0100_0000
  {}

  lemma ProbeNotZero()
    ensures LATENCY_TAG != 0
  {}

  lemma DataTasksHead(tag: Tag, tags: seq<Tag>, tasks: Tasks)
    ensures DataTasks([tag] + tags, tasks) ==
            if tag in tasks.tags then (if tag in tasks.data then 1 else 0) + DataTasks(tags, Done(tasks, tag))
            else DataTasks(tags, tasks)
    ensures forall t :: t in [tag] + tags <==> t == tag || t in tags
  {
    assert ([tag] + tags)[1..] == tags;
  }

  lemma {:induction false} DataTasksOfProbe(tags: seq<Tag>, tasks: Tasks)
    ensures DataTasks(tags + [LATENCY_TAG], tasks) ==
            DataTasks(tags, tasks)
            + if LATENCY_TAG in tasks.tags && LATENCY_TAG !in tags && LATENCY_TAG in tasks.data then 1 else 0
    decreases |tags|
  {
    hide BuildTag;
    if tags == [] {
      assert tags + [LATENCY_TAG] == [LATENCY_TAG];
      assert DataTasks([], Done(tasks, LATENCY_TAG)) == 0;
    } else {
      var tag, rest := tags[0], tags[1..];
      assert tags == [tag] + rest && tags + [LATENCY_TAG] == [tag] + (rest + [LATENCY_TAG]);
      DataTasksHead(tag, rest, tasks);
      DataTasksHead(tag, rest + [LATENCY_TAG], tasks);
      if tag in tasks.tags {
        DataTasksOfProbe(rest, Done(tasks, tag));
      } else {
        DataTasksOfProbe(rest, tasks);
      }
    }
  }

  function Wraps(n: nat): nat { n / WINDOW }

  /** The loop reaches a probe it queued itself, and a task goes by that tag. */
  predicate ProbeTaken(queue: seq<Tag>, tasks: Tasks, index: nat) {
    && 0 !in queue && LATENCY_TAG in tasks.tags && LATENCY_TAG !in BeforeZero(queue)
    && index + DataTasks(BeforeZero(queue), tasks) >= WINDOW
  }

  /** How many data tasks the loop completes. */
  function DataFound(queue: seq<Tag>, tasks: Tasks, index: nat): nat {
    DataTasks(BeforeZero(queue), tasks) + if ProbeTaken(queue, tasks, index) && LATENCY_TAG in tasks.data then 1 else 0
  }

  /** The state described by DrainLeaves. */
  ghost predicate Leaves(d: Drained, queue: seq<Tag>, tasks: Tasks, index: nat) {
    var n := index + DataFound(queue, tasks, index);
    && d.index + WINDOW * Wraps(n) == n
    && d.queue == if 0 in queue then AfterZero(queue) + Probes(Wraps(n)) else []
  }

  lemma HeadApart(queue: seq<Tag>)
    requires queue != [] && queue[0] != 0
    ensures 0 in queue <==> 0 in queue[1..]
    ensures BeforeZero(queue) == [queue[0]] + BeforeZero(queue[1..])
    ensures AfterZero(queue) == AfterZero(queue[1..])
  {
    if 0 in queue {
      var i :| 0 <= i < |queue| && queue[i] == 0;
      assert queue[1..][i - 1] == 0;
    }
  }

  lemma LeavesBehindTask(d: Drained, queue: seq<Tag>, tasks: Tasks, index: nat)
    requires queue != [] && queue[0] != 0 && queue[0] in tasks.tags && index < WINDOW
    requires var (q, i) := AfterCompletion(queue[1..], queue[0] in tasks.data, index);
             Leaves(d, q, Done(tasks, queue[0]), i)
    ensures Leaves(d, queue, tasks, index)
  {
    hide BuildTag, Leaves;
    if queue[0] in tasks.data && index + 1 == WINDOW {
      LeavesBehindProbe(d, queue, tasks);
    } else {
      LeavesBehindOther(d, queue, tasks, index);
    }
  }

  lemma LeavesBehindOther(d: Drained, queue: seq<Tag>, tasks: Tasks, index: nat)
    requires queue != [] && queue[0] != 0 && queue[0] in tasks.tags && index < WINDOW
    requires !(queue[0] in tasks.data && index + 1 == WINDOW)
    requires Leaves(d, queue[1..], Done(tasks, queue[0]), if queue[0] in tasks.data then index + 1 else index)
    ensures Leaves(d, queue, tasks, index)
  {
    hide BuildTag, BeforeZero, AfterZero, Wraps, Probes, DataFound;
    HeadApart(queue);
    DataFoundBehind(queue, tasks, index);
  }

  lemma LeavesBehindProbe(d: Drained, queue: seq<Tag>, tasks: Tasks)
    requires queue != [] && queue[0] != 0 && queue[0] in tasks.tags && queue[0] in tasks.data
    requires Leaves(d, queue[1..] + [LATENCY_TAG], Done(tasks, queue[0]), 0)
    ensures Leaves(d, queue, tasks, WINDOW - 1)
  {
    hide BuildTag, BeforeZero, AfterZero, Wraps, Probes, DataFound;
    HeadApart(queue);
    DataFoundBehind(queue, tasks, WINDOW - 1);
    ProbeBehind(queue[1..]);
    var n := DataFound(queue[1..] + [LATENCY_TAG], Done(tasks, queue[0]), 0);
    OneWindow(n);
    MoreProbes(AfterZero(queue[1..]), Wraps(n));
  }

  /** Whether a probe is reached, told from behind the first task. */
  lemma ProbeTakenBehind(queue: seq<Tag>, tasks: Tasks, index: nat)
    requires queue != [] && queue[0] != 0 && index < WINDOW
    ensures queue[0] !in tasks.tags ==> (ProbeTaken(queue, tasks, index) <==> ProbeTaken(queue[1..], tasks, index))
    ensures queue[0] in tasks.tags && !(queue[0] in tasks.data && index + 1 == WINDOW) ==>
              (ProbeTaken(queue, tasks, index) <==>
               ProbeTaken(queue[1..], Done(tasks, queue[0]), if queue[0] in tasks.data then index + 1 else index))
    ensures queue[0] in tasks.tags && queue[0] in tasks.data && index + 1 == WINDOW ==>
              && !ProbeTaken(queue[1..] + [LATENCY_TAG], Done(tasks, queue[0]), 0)
              && (ProbeTaken(queue, tasks, index) <==>
                  0 !in queue[1..] && LATENCY_TAG in Done(tasks, queue[0]).tags &&
                  LATENCY_TAG !in BeforeZero(queue[1..]))
  {
    hide BuildTag, BeforeZero, DataTasks;
    HeadApart(queue);
    DataTasksHead(queue[0], BeforeZero(queue[1..]), tasks);
    ProbeBehind(queue[1..]);
  }

  lemma DataFoundBehind(queue: seq<Tag>, tasks: Tasks, index: nat)
    requires queue != [] && queue[0] != 0 && queue[0] in tasks.tags && index < WINDOW
    ensures var (q, i) := AfterCompletion(queue[1..], queue[0] in tasks.data, index);
            DataFound(queue, tasks, index) ==
            DataFound(q, Done(tasks, queue[0]), i) + if queue[0] in tasks.data then 1 else 0
  {
    hide BuildTag, BeforeZero, DataTasks, ProbeTaken;
    var rest, left := queue[1..], Done(tasks, queue[0]);
    HeadApart(queue);
    DataTasksHead(queue[0], BeforeZero(rest), tasks);
    ProbeTakenBehind(queue, tasks, index);
    ProbeOutstanding(queue, tasks, index);
    ProbeOutstanding(rest, left, if queue[0] in tasks.data then index + 1 else index);
    ProbeOutstanding(rest + [LATENCY_TAG], left, 0);
    ProbeBehind(rest);
    DataTasksOfProbe(BeforeZero(rest), left);
    if 0 in rest {
      ProbeNotTaken(queue, tasks, index);
    }
  }

  lemma ProbeOutstanding(queue: seq<Tag>, tasks: Tasks, index: nat)
    ensures ProbeTaken(queue, tasks, index) ==> LATENCY_TAG in tasks.tags
  {}

  lemma ProbeNotTaken(queue: seq<Tag>, tasks: Tasks, index: nat)
    requires 0 in queue
    ensures !ProbeTaken(queue, tasks, index)
  {}

  lemma MoreProbes(s: seq<Tag>, n: nat)
    ensures s + [LATENCY_TAG] + Probes(n) == s + Probes(n + 1)
  {
    hide BuildTag;
    assert [LATENCY_TAG] + Probes(n) == Probes(n + 1);
  }

  /** What the loop leaves: the window index has advanced by the data tasks found; without a tag 0 the
    queue is empty, with one it holds what stood behind it and the probes queued on the way. */
  lemma {:induction false} DrainLeaves(queue: seq<Tag>, tasks: Tasks, index: nat)
    requires index < WINDOW
    ensures Drain(queue, tasks, index).index < WINDOW
    ensures Leaves(Drain(queue, tasks, index), queue, tasks, index)
    decreases |tasks.tags|, |queue|
  {
    hide BuildTag, Leaves;
    if queue == [] || queue[0] == 0 {
      LeavesNothing(queue, tasks, index);
    } else {
      var tag, rest := queue[0], queue[1..];
      if tag !in tasks.tags {
        DrainLeaves(rest, tasks, index);
        LeavesBehindUnknown(Drain(rest, tasks, index), queue, tasks, index);
      } else {
        Smaller(tasks, tag);
        var (q, i) := AfterCompletion(rest, tag in tasks.data, index);
        DrainLeaves(q, Done(tasks, tag), i);
        LeavesBehindTask(Drain(q, Done(tasks, tag), i), queue, tasks, index);
        LeavesIgnoresReports(Drain(q, Done(tasks, tag), i), [tag], queue, tasks, index);
      }
    }
  }

  lemma LeavesNothing(queue: seq<Tag>, tasks: Tasks, index: nat)
    requires (queue == [] || queue[0] == 0) && index < WINDOW
    ensures Leaves(Drained(if queue == [] then [] else queue[1..], tasks, index, []), queue, tasks, index)
  {
    assert Wraps(index) == 0;
    assert Probes(0) == [];
  }

  lemma LeavesBehindUnknown(d: Drained, queue: seq<Tag>, tasks: Tasks, index: nat)
    requires queue != [] && queue[0] != 0 && queue[0] !in tasks.tags
    requires Leaves(d, queue[1..], tasks, index)
    ensures Leaves(d, queue, tasks, index)
  {
    hide BuildTag, BeforeZero, AfterZero, Wraps;
    HeadApart(queue);
  }

  lemma LeavesIgnoresReports(d: Drained, front: seq<Tag>, queue: seq<Tag>, tasks: Tasks, index: nat)
    requires Leaves(d, queue, tasks, index)
    ensures Leaves(d.(reported := front + d.reported), queue, tasks, index)
  {}

  lemma OneWindow(n: nat)
    ensures Wraps(WINDOW + n) == Wraps(n) + 1
  {}

  /** The queue ends up empty if and only if no queued tag is 0, or the first one stands last and
    fewer data tasks precede it than the probe window has left. */
  lemma DrainEmpties(queue: seq<Tag>, tasks: Tasks, index: nat)
    requires index < WINDOW
    ensures Drain(queue, tasks, index).queue == [] <==>
            (0 !in queue || (AfterZero(queue) == [] && index + DataTasks(BeforeZero(queue), tasks) < WINDOW))
  {
    hide Drain, BuildTag, DataTasks;
    DrainLeaves(queue, tasks, index);
    var n := index + DataTasks(BeforeZero(queue), tasks);
    assert Wraps(n) == 0 <==> n < WINDOW;
    assert |Probes(Wraps(n))| == Wraps(n);
  }

  /** The task goes by a tag that stands before the first tag 0, or by that of a probe the loop reaches. */
  predicate Found(t: Tag, queue: seq<Tag>, tasks: Tasks, index: nat) {
    t in tasks.tags && (t in BeforeZero(queue) || (t == LATENCY_TAG && ProbeTaken(queue, tasks, index)))
  }

  lemma FoundBehind(t: Tag, queue: seq<Tag>, tasks: Tasks, index: nat)
    requires queue != [] && queue[0] != 0 && index < WINDOW
    ensures queue[0] !in tasks.tags ==> (Found(t, queue, tasks, index) <==> Found(t, queue[1..], tasks, index))
    ensures queue[0] in tasks.tags ==>
              var (q, i) := AfterCompletion(queue[1..], queue[0] in tasks.data, index);
              Found(t, queue, tasks, index) <==> t == queue[0] || Found(t, q, Done(tasks, queue[0]), i)
  {
    hide BuildTag, BeforeZero, ProbeTaken, DataTasks;
    HeadApart(queue);
    DataTasksHead(queue[0], BeforeZero(queue[1..]), tasks);
    ProbeTakenBehind(queue, tasks, index);
    ProbeBehind(queue[1..]);
    if 0 in queue {
      ProbeNotTaken(queue, tasks, index);
    }
  }

  /** Every task found is reported exactly once and nothing else is; reported tasks are no longer
    outstanding, the others are untouched. */
  lemma {:induction false} DrainReports(queue: seq<Tag>, tasks: Tasks, index: nat)
    requires index < WINDOW
    ensures var d := Drain(queue, tasks, index);
            && NoRepeats(d.reported)
            && (forall t: Tag {:trigger t in d.reported} :: t in d.reported <==> Found(t, queue, tasks, index))
            && d.tasks == AllDone(tasks, d.reported)
    decreases |tasks.tags|, |queue|
  {
    hide BuildTag, Found;
    var d := Drain(queue, tasks, index);
    if queue == [] || queue[0] == 0 {
      forall t: Tag
        ensures !Found(t, queue, tasks, index)
      {
        NoneFound(t, queue, tasks, index);
      }
    } else {
      var tag, rest := queue[0], queue[1..];
      forall t: Tag
        ensures tag !in tasks.tags ==> (Found(t, queue, tasks, index) <==> Found(t, rest, tasks, index))
        ensures tag in tasks.tags ==>
                  var (q, i) := AfterCompletion(rest, tag in tasks.data, index);
                  Found(t, queue, tasks, index) <==> t == tag || Found(t, q, Done(tasks, tag), i)
      {
        FoundBehind(t, queue, tasks, index);
      }
      if tag !in tasks.tags {
        DrainReports(rest, tasks, index);
      } else {
        Smaller(tasks, tag);
        var left := Done(tasks, tag);
        var (q, i) := AfterCompletion(rest, tag in tasks.data, index);
        DrainReports(q, left, i);
        FoundOutstanding(q, left, i);
        ReportFirst(tag, Drain(q, left, i).reported, left, tasks);
      }
    }
  }

  lemma FoundOutstanding(queue: seq<Tag>, tasks: Tasks, index: nat)
    ensures forall t: Tag {:trigger Found(t, queue, tasks, index)} :: Found(t, queue, tasks, index) ==> t in tasks.tags
  {}

  lemma NoneFound(t: Tag, queue: seq<Tag>, tasks: Tasks, index: nat)
    requires (queue == [] || queue[0] == 0) && index < WINDOW
    ensures !Found(t, queue, tasks, index)
  {}

  lemma ReportFirst(tag: Tag, reported: seq<Tag>, left: Tasks, tasks: Tasks)
    requires tag in tasks.tags && left == Done(tasks, tag) && NoRepeats(reported)
    requires forall t :: t in reported ==> t in left.tags
    ensures NoRepeats([tag] + reported)
    ensures AllDone(left, reported) == AllDone(tasks, [tag] + reported)
  {
    assert tag !in reported;
  }
}
