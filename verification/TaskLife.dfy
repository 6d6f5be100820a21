/** The SCSI tasks of a session from submission to report: whichever way a task ends, the driver stack
  hears of it once. */
module TaskLife {
  import opened Words
  import opened TaskTag
  import opened DrainLoop

  /** A connection as far as tasks are concerned: its queue of tags and its bandwidth window. */
  datatype Line = Line(enabled: bool, queue: seq<Tag>, index: nat)

  /** A session: the outstanding tasks, the tags ever submitted and reported, and its connections. */
  datatype Life = Life(tasks: Tasks, submitted: seq<Tag>, reported: seq<Tag>, lines: seq<Option<Line>>)

  datatype Event =
    | Submit(tag: Tag, hasData: bool)
    | Response(cid: nat, tag: Tag)
    | Timeout(cid: nat, tag: Tag)
    | HeadAnswered(cid: nat)
    | Connect(cid: nat)
    | Enable(cid: nat, on: bool)
    | Deactivate(cid: nat)
    | Release(cid: nat)

  predicate Has(l: Life, cid: nat) { cid < |l.lines| && l.lines[cid].Some? }

  function SetLine(l: Life, cid: nat, line: Option<Line>): Life
    requires cid < |l.lines|
  {
    l.(lines := l.lines[cid := line])
  }

  function Pop(line: Line): Line { if line.queue == [] then line else line.(queue := line.queue[1..]) }

  /** A full window queues a probe behind the waiting tasks. */
  function AfterReport(line: Line, hasData: bool): Line {
    var (queue, index) := AfterCompletion(line.queue, hasData, line.index);
    line.(queue := queue, index := index)
  }

  /** The task is reported to the driver stack. */
  function Report(l: Life, cid: nat, tag: Tag): Life
    requires Has(l, cid)
  {
    SetLine(l, cid, Some(AfterReport(l.lines[cid].value, tag in l.tasks.data)))
      .(tasks := Done(l.tasks, tag), reported := l.reported + [tag])
  }

  function PopHead(l: Life, cid: nat): Life
    requires Has(l, cid)
  {
    SetLine(l, cid, Some(Pop(l.lines[cid].value)))
  }

  function Added(tasks: Tasks, tag: Tag, hasData: bool): Tasks {
    Tasks(tasks.tags + {tag}, if hasData then tasks.data + {tag} else tasks.data - {tag})
  }

  /** A task is queued on the first connection, enabled or not; without one it is rejected. */
  function Submitted(l: Life, tag: Tag, hasData: bool): Life {
    if !Has(l, 0) then l
    else
      var line := l.lines[0].value;
      SetLine(l, 0, Some(line.(queue := line.queue + [tag])))
        .(tasks := Added(l.tasks, tag, hasData), submitted := l.submitted + [tag])
  }

  function Drained(l: Life, cid: nat): Life
    requires Has(l, cid)
  {
    var line := l.lines[cid].value;
    var d := Drain(line.queue, l.tasks, line.index);
    SetLine(l, cid, Some(Line(false, d.queue, d.index))).(tasks := d.tasks, reported := l.reported + d.reported)
  }

  function Step(l: Life, e: Event): Life {
    match e
    case Submit(tag, hasData) => Submitted(l, tag, hasData)
    case Response(cid, tag) =>
      if Has(l, cid) && tag in l.tasks.tags then PopHead(Report(l, cid, tag), cid) else l
    case Timeout(cid, tag) =>
      if Has(l, cid) && tag in l.tasks.tags then Report(PopHead(l, cid), cid, tag) else l
    case HeadAnswered(cid) => if Has(l, cid) then PopHead(l, cid) else l
    case Connect(cid) =>
      if cid < |l.lines| && l.lines[cid].None? then SetLine(l, cid, Some(Line(false, [], 0))) else l
    case Enable(cid, on) => if Has(l, cid) then SetLine(l, cid, Some(l.lines[cid].value.(enabled := on))) else l
    case Deactivate(cid) => if Has(l, cid) then Drained(l, cid) else l
    case Release(cid) =>
      if !Has(l, cid) then l
      else SetLine(if l.lines[cid].value.enabled then Drained(l, cid) else l, cid, None)
  }

  function Run(l: Life, es: seq<Event>): Life
    decreases |es|
  {
    if es == [] then l else Run(Step(l, es[0]), es[1..])
  }

  ghost predicate WindowsOpen(l: Life) {
    forall cid :: 0 <= cid < |l.lines| && l.lines[cid].Some? ==> l.lines[cid].value.index < WINDOW
  }

  /** Every submission of a tag has been reported, but for the one still outstanding. */
  ghost predicate Balanced(l: Life, t: Tag) {
    Occurrences(l.submitted, t) == Occurrences(l.reported, t) + if t in l.tasks.tags then 1 else 0
  }

  ghost predicate Settled(l: Life) {
    WindowsOpen(l) && forall t: Tag :: Balanced(l, t)
  }

  lemma ReportBalanced(l: Life, cid: nat, tag: Tag, t: Tag)
    requires Has(l, cid) && tag in l.tasks.tags
    ensures Balanced(Report(l, cid, tag), t) <==> Balanced(l, t)
  {
    hide BuildTag, AfterReport;
    OccurrencesConcat(l.reported, [tag], t);
    assert [tag][..0] == [];
    assert Occurrences([tag], t) == if t == tag then 1 else 0;
  }

  lemma DrainBalanced(l: Life, cid: nat, t: Tag)
    requires WindowsOpen(l) && Has(l, cid)
    ensures Balanced(Drained(l, cid), t) <==> Balanced(l, t)
  {
    hide BuildTag, Occurrences, Found;
    var line := l.lines[cid].value;
    var d := Drain(line.queue, l.tasks, line.index);
    DrainReports(line.queue, l.tasks, line.index);
    FoundOutstanding(line.queue, l.tasks, line.index);
    OccurrencesConcat(l.reported, d.reported, t);
    OccursOnce(d.reported, t);
  }

  lemma SubmitBalanced(l: Life, tag: Tag, hasData: bool, t: Tag)
    requires Has(l, 0)
    ensures t != tag || tag !in l.tasks.tags ==> (Balanced(Submitted(l, tag, hasData), t) <==> Balanced(l, t))
    ensures t == tag && tag in l.tasks.tags ==> !Balanced(Submitted(l, tag, hasData), t) || !Balanced(l, t)
  {
    hide BuildTag;
    OccurrencesConcat(l.submitted, [tag], t);
    assert [tag][..0] == [];
    assert Occurrences([tag], t) == if t == tag then 1 else 0;
  }

  lemma StepWindows(l: Life, e: Event)
    requires WindowsOpen(l)
    ensures WindowsOpen(Step(l, e))
  {
    hide BuildTag, Drain;
    if (e.Deactivate? || e.Release?) && Has(l, e.cid) {
      DrainLeaves(l.lines[e.cid].value.queue, l.tasks, l.lines[e.cid].value.index);
    }
  }

  /** The driver stack submits no tag that is still outstanding. */
  predicate Fresh(l: Life, e: Event) { e.Submit? && Has(l, 0) ==> e.tag !in l.tasks.tags }

  lemma StepBalanced(l: Life, e: Event, t: Tag)
    requires WindowsOpen(l)
    ensures !(e.Submit? && t == e.tag) || Fresh(l, e) ==> (Balanced(Step(l, e), t) <==> Balanced(l, t))
    ensures e.Submit? && t == e.tag && !Fresh(l, e) ==> !Balanced(Step(l, e), t) || !Balanced(l, t)
  {
    hide BuildTag, Report, Drained, Submitted, Occurrences;
    match e {
      case Submit(tag, hasData) =>
        if Has(l, 0) { SubmitBalanced(l, tag, hasData, t); } else { Rejected(l, tag, hasData); }
      case Response(cid, tag) => if Has(l, cid) && tag in l.tasks.tags { ReportBalanced(l, cid, tag, t); }
      case Timeout(cid, tag) => if Has(l, cid) && tag in l.tasks.tags { ReportBalanced(PopHead(l, cid), cid, tag, t); }
      case HeadAnswered(cid) =>
      case Connect(cid) =>
      case Enable(cid, on) =>
      case Deactivate(cid) => if Has(l, cid) { DrainBalanced(l, cid, t); }
      case Release(cid) => if Has(l, cid) { DrainBalanced(l, cid, t); }
    }
  }

  lemma Rejected(l: Life, tag: Tag, hasData: bool)
    requires !Has(l, 0)
    ensures Submitted(l, tag, hasData) == l
  {}

  lemma StepSettledIff(l: Life, e: Event)
    requires Settled(l)
    ensures Settled(Step(l, e)) <==> Fresh(l, e)
  {
    hide Step, Balanced, WindowsOpen;
    StepWindows(l, e);
    forall t: Tag
      ensures !(e.Submit? && t == e.tag) || Fresh(l, e) ==> (Balanced(Step(l, e), t) <==> Balanced(l, t))
      ensures e.Submit? && t == e.tag && !Fresh(l, e) ==> !Balanced(Step(l, e), t) || !Balanced(l, t)
    {
      StepBalanced(l, e, t);
    }
    if !Fresh(l, e) {
      assert Balanced(l, e.tag);
    }
  }

  ghost predicate AlwaysSettled(l: Life, es: seq<Event>)
    decreases |es|
  {
    Settled(l) && (es == [] || AlwaysSettled(Step(l, es[0]), es[1..]))
  }

  predicate FreshRun(l: Life, es: seq<Event>)
    decreases |es|
  {
    es == [] || (Fresh(l, es[0]) && FreshRun(Step(l, es[0]), es[1..]))
  }

  /** All through a run every submission of a tag has been reported but for the outstanding one, if and
    only if no tag is submitted while it is outstanding. */
  lemma {:induction false} SettledIffFresh(l: Life, es: seq<Event>)
    requires Settled(l)
    ensures AlwaysSettled(l, es) <==> FreshRun(l, es)
    ensures FreshRun(l, es) ==> Settled(Run(l, es))
    decreases |es|
  {
    hide Settled, Step, Fresh;
    if es != [] {
      StepSettledIff(l, es[0]);
      if Settled(Step(l, es[0])) {
        SettledIffFresh(Step(l, es[0]), es[1..]);
      }
    }
  }

  const NEW_SESSION: Life := Life(NO_OUTSTANDING, [], [], [None, None])

  /** Over every run of submissions, responses, time-outs, deactivations and releases, no submission is
    reported twice, and the one not yet reported is outstanding. */
  lemma EveryTaskReportedOnce(es: seq<Event>, t: Tag)
    requires FreshRun(NEW_SESSION, es)
    ensures var l := Run(NEW_SESSION, es);
            && Occurrences(l.reported, t) <= Occurrences(l.submitted, t) <= Occurrences(l.reported, t) + 1
            && (Occurrences(l.reported, t) == Occurrences(l.submitted, t) <==> t !in l.tasks.tags)
  {
    hide Run, FreshRun;
    assert Settled(NEW_SESSION);
    SettledIffFresh(NEW_SESSION, es);
    assert Balanced(Run(NEW_SESSION, es), t);
  }

  // ----- Tasks that can still be reported

  function FirstQueue(l: Life): seq<Tag> { if Has(l, 0) then l.lines[0].value.queue else [] }

  /** Every outstanding task stands in the queue of the first connection. */
  ghost predicate AllQueued(l: Life) {
    forall t: Tag {:trigger t in l.tasks.tags} :: t in l.tasks.tags ==> t in FirstQueue(l)
  }

  /** The head of the first queue is an outstanding task that stands nowhere else. */
  predicate HeadWaits(l: Life) {
    var q := FirstQueue(l);
    q != [] && q[0] in l.tasks.tags && q[0] !in q[1..]
  }

  /** The event takes an outstanding task out of the queue without reporting it: the head under the
    response of another task, a task with tag 0 that ends a drain, or what waits on a connection
    that is released. */
  ghost predicate Strands(l: Life, e: Event) {
    match e
    case Response(cid, tag) => cid == 0 && Has(l, 0) && tag in l.tasks.tags && HeadWaits(Report(l, 0, tag))
    case Timeout(cid, tag) => cid == 0 && Has(l, 0) && tag in l.tasks.tags && HeadWaits(Report(l, 0, tag))
    case HeadAnswered(cid) => cid == 0 && HeadWaits(l)
    case Deactivate(cid) => cid == 0 && Has(l, 0) && 0 in l.tasks.tags && 0 !in AfterZero(FirstQueue(l))
    case Release(cid) =>
      && cid == 0 && Has(l, 0)
      && exists t: Tag :: t in l.tasks.tags && !(l.lines[0].value.enabled && t in BeforeZero(FirstQueue(l)))
    case _ => false
  }

  lemma {:induction false} AroundZero(queue: seq<Tag>, t: Tag)
    ensures t in queue <==> t in BeforeZero(queue) || (0 in queue && (t == 0 || t in AfterZero(queue)))
    ensures t in BeforeZero(queue) ==> t != 0
    decreases |queue|
  {
    if queue != [] {
      AroundZero(queue[1..], t);
      assert queue == [queue[0]] + queue[1..];
    }
  }

  /** When all outstanding tasks are queued, a drain leaves outstanding what stands behind the first tag 0. */
  lemma DrainedTags(l: Life)
    requires WindowsOpen(l) && Has(l, 0) && AllQueued(l)
    ensures forall t: Tag :: t in Drained(l, 0).tasks.tags <==> t in l.tasks.tags && t !in BeforeZero(FirstQueue(l))
  {
    hide BuildTag, BeforeZero, Drain, DataTasks;
    var line := l.lines[0].value;
    DrainReports(line.queue, l.tasks, line.index);
    forall t: Tag
      ensures Found(t, line.queue, l.tasks, line.index) <==> t in l.tasks.tags && t in BeforeZero(line.queue)
    {
      AroundZero(line.queue, t);
    }
  }

  lemma DrainedQueue(l: Life)
    requires WindowsOpen(l) && Has(l, 0)
    ensures var q, after := FirstQueue(l), FirstQueue(Drained(l, 0));
            && Has(Drained(l, 0), 0)
            && (0 !in q ==> after == [])
            && (0 in q ==> forall t: Tag :: t in after ==> t in AfterZero(q) || t == LATENCY_TAG)
            && (0 in q ==> forall t: Tag :: t in AfterZero(q) ==> t in after)
  {
    hide BuildTag, Drain, AfterZero;
    DrainLeaves(FirstQueue(l), l.tasks, l.lines[0].value.index);
  }

  lemma DrainQueuedIff(l: Life)
    requires WindowsOpen(l) && Has(l, 0) && AllQueued(l)
    ensures AllQueued(Drained(l, 0)) <==> !Strands(l, Deactivate(0))
  {
    hide BuildTag, Drained, BeforeZero, AfterZero;
    var q, d := FirstQueue(l), Drained(l, 0);
    DrainedTags(l);
    DrainedQueue(l);
    ProbeNotZero();
    forall t: Tag
      ensures t in q <==> t in BeforeZero(q) || (0 in q && (t == 0 || t in AfterZero(q)))
      ensures t in BeforeZero(q) ==> t != 0
    {
      AroundZero(q, t);
    }
    if Strands(l, Deactivate(0)) {
      assert 0 in d.tasks.tags && 0 !in FirstQueue(d);
    }
  }

  lemma ReportQueued(l: Life, cid: nat, tag: Tag)
    requires Has(l, cid) && AllQueued(l)
    ensures AllQueued(Report(l, cid, tag)) && Has(Report(l, cid, tag), cid)
  {
    hide BuildTag;
    assert forall t: Tag :: t in FirstQueue(l) ==> t in FirstQueue(Report(l, cid, tag));
  }

  lemma PopQueued(l: Life, cid: nat)
    requires Has(l, cid) && AllQueued(l)
    ensures AllQueued(PopHead(l, cid)) <==> !(cid == 0 && HeadWaits(l))
  {
    hide BuildTag;
    var popped := PopHead(l, cid);
    var q, after := FirstQueue(l), FirstQueue(popped);
    if cid == 0 && q != [] {
      assert after == q[1..] && q == [q[0]] + q[1..];
      if HeadWaits(l) {
        var t := q[0];
        assert t in popped.tasks.tags && t !in FirstQueue(popped);
        assert !AllQueued(popped);
      } else {
        assert forall t: Tag :: t in q ==> t == q[0] || t in after;
      }
    } else {
      assert after == q;
    }
  }

  lemma ReportAndPop(l: Life, cid: nat, tag: Tag)
    requires Has(l, cid) && l.lines[cid].value.queue != []
    ensures Report(PopHead(l, cid), cid, tag) == PopHead(Report(l, cid, tag), cid)
  {
    hide BuildTag;
    var line, hasData := l.lines[cid].value, tag in l.tasks.data;
    assert (line.queue + [LATENCY_TAG])[1..] == line.queue[1..] + [LATENCY_TAG];
    assert AfterReport(Pop(line), hasData) == Pop(AfterReport(line, hasData));
    assert PopHead(Report(l, cid, tag), cid).lines == l.lines[cid := Some(Pop(AfterReport(line, hasData)))];
    assert Report(PopHead(l, cid), cid, tag).lines == l.lines[cid := Some(AfterReport(Pop(line), hasData))];
  }

  /** The drain of another connection's queue touches the first not at all. */
  lemma DrainsOther(l: Life, cid: nat)
    requires WindowsOpen(l) && Has(l, cid) && cid != 0 && AllQueued(l)
    ensures AllQueued(Drained(l, cid)) && FirstQueue(Drained(l, cid)) == FirstQueue(l)
  {
    hide BuildTag, Drain, Found;
    var line := l.lines[cid].value;
    DrainReports(line.queue, l.tasks, line.index);
  }

  lemma ReleasesOther(l: Life, cid: nat)
    requires WindowsOpen(l) && Has(l, cid) && cid != 0 && AllQueued(l)
    ensures AllQueued(Step(l, Release(cid)))
  {
    hide BuildTag, Drain, Found;
    DrainsOther(l, cid);
    assert FirstQueue(Step(l, Release(cid))) == FirstQueue(l);
  }

  lemma TimeoutQueuedIff(l: Life, cid: nat, tag: Tag)
    requires Has(l, cid) && AllQueued(l) && tag in l.tasks.tags
    ensures AllQueued(Report(PopHead(l, cid), cid, tag)) <==> !(cid == 0 && HeadWaits(Report(l, 0, tag)))
  {
    hide BuildTag, Report, PopHead, HeadWaits;
    if cid == 0 {
      ReportAndPop(l, cid, tag);
      ReportQueued(l, cid, tag);
      PopQueued(Report(l, cid, tag), cid);
    } else {
      PopQueued(l, cid);
      PopsIn(l, cid);
      ReportQueued(PopHead(l, cid), cid, tag);
    }
  }

  lemma PopsIn(l: Life, cid: nat)
    requires Has(l, cid)
    ensures Has(PopHead(l, cid), cid)
  {}

  lemma ReleaseQueuedIff(l: Life)
    requires WindowsOpen(l) && Has(l, 0) && AllQueued(l)
    ensures AllQueued(Step(l, Release(0))) <==> !Strands(l, Release(0))
  {
    hide BuildTag, Drained, BeforeZero;
    var after := Step(l, Release(0));
    DrainedTags(l);
    DrainedQueue(l);
    assert FirstQueue(after) == [];
    if Strands(l, Release(0)) {
      var t: Tag :| t in l.tasks.tags && !(l.lines[0].value.enabled && t in BeforeZero(FirstQueue(l)));
      assert t in after.tasks.tags;
    }
  }

  /** Each event keeps every outstanding task queued if and only if it strands none. */
  lemma StepQueuedIff(l: Life, e: Event)
    requires WindowsOpen(l) && AllQueued(l)
    ensures AllQueued(Step(l, e)) <==> !Strands(l, e)
  {
    hide BuildTag, Drained, BeforeZero, AfterZero, Report, PopHead, HeadWaits;
    match e {
      case Submit(tag, hasData) => SubmitQueued(l, tag, hasData);
      case Response(cid, tag) =>
        if Has(l, cid) && tag in l.tasks.tags {
          ReportQueued(l, cid, tag);
          PopQueued(Report(l, cid, tag), cid);
        }
      case Timeout(cid, tag) =>
        if Has(l, cid) && tag in l.tasks.tags {
          TimeoutQueuedIff(l, cid, tag);
        }
      case HeadAnswered(cid) =>
        if Has(l, cid) {
          PopQueued(l, cid);
        } else {
          NothingWaits(l);
        }
      case Connect(cid) =>
      case Enable(cid, on) =>
      case Deactivate(cid) =>
        if Has(l, cid) {
          if cid == 0 {
            DrainQueuedIff(l);
          } else {
            DrainsOther(l, cid);
          }
        }
      case Release(cid) =>
        if Has(l, cid) {
          if cid == 0 {
            ReleaseQueuedIff(l);
          } else {
            ReleasesOther(l, cid);
          }
        }
    }
  }

  lemma NothingWaits(l: Life)
    ensures !Has(l, 0) ==> !HeadWaits(l)
  {}

  lemma SubmitQueued(l: Life, tag: Tag, hasData: bool)
    requires AllQueued(l)
    ensures AllQueued(Submitted(l, tag, hasData))
  {}

  ghost predicate AlwaysQueued(l: Life, es: seq<Event>)
    decreases |es|
  {
    AllQueued(l) && (es == [] || AlwaysQueued(Step(l, es[0]), es[1..]))
  }

  ghost predicate NeverStrands(l: Life, es: seq<Event>)
    decreases |es|
  {
    es == [] || (!Strands(l, es[0]) && NeverStrands(Step(l, es[0]), es[1..]))
  }

  /** All through a run every outstanding task stands in the queue of the first connection if and only
    if no event of the run strands one. */
  lemma {:induction false} QueuedIffNeverStrands(l: Life, es: seq<Event>)
    requires WindowsOpen(l) && AllQueued(l)
    ensures AlwaysQueued(l, es) <==> NeverStrands(l, es)
    ensures WindowsOpen(Run(l, es)) && (NeverStrands(l, es) ==> AllQueued(Run(l, es)))
    decreases |es|
  {
    hide WindowsOpen, AllQueued, Step, Strands;
    if es != [] {
      StepWindows(l, es[0]);
      StepQueuedIff(l, es[0]);
      if AllQueued(Step(l, es[0])) {
        QueuedIffNeverStrands(Step(l, es[0]), es[1..]);
      } else {
        RunWindows(Step(l, es[0]), es[1..]);
      }
    }
  }

  lemma {:induction false} RunWindows(l: Life, es: seq<Event>)
    requires WindowsOpen(l)
    ensures WindowsOpen(Run(l, es))
    decreases |es|
  {
    hide WindowsOpen, Step;
    if es != [] {
      StepWindows(l, es[0]);
      RunWindows(Step(l, es[0]), es[1..]);
    }
  }

  /** Deactivating the first connection then leaves nothing outstanding if and only if every
    outstanding task stands in front of the first tag 0: if no tag 0 is queued, or, where tag 0 is
    queued for an outstanding task, only then. */
  lemma DeactivationSettlesIff(l: Life)
    requires WindowsOpen(l) && Has(l, 0) && AllQueued(l)
    ensures var after, q := Step(l, Deactivate(0)), FirstQueue(l);
            && (after.tasks.tags == {} <==> forall t: Tag :: t in l.tasks.tags ==> t in BeforeZero(q))
            && (0 !in q ==> after.tasks.tags == {})
            && (0 in q && 0 in l.tasks.tags ==> after.tasks.tags != {})
  {
    hide BuildTag, Drained, BeforeZero, AfterZero;
    var after, q := Step(l, Deactivate(0)), FirstQueue(l);
    DrainedTags(l);
    forall t: Tag
      ensures t in q <==> t in BeforeZero(q) || (0 in q && (t == 0 || t in AfterZero(q)))
      ensures t in BeforeZero(q) ==> t != 0
    {
      AroundZero(q, t);
    }
    if forall t: Tag :: t in l.tasks.tags ==> t in BeforeZero(q) {
      assert forall t: Tag :: t !in after.tasks.tags;
      assert after.tasks.tags == {};
    } else {
      var t: Tag :| t in l.tasks.tags && t !in BeforeZero(q);
      assert t in after.tasks.tags;
    }
    if 0 in q && 0 in l.tasks.tags {
      assert 0 in after.tasks.tags;
    }
  }

  /** After a run that submits no outstanding tag and strands no task, deactivating the first
    connection reports everything that was submitted, once each, unless tag 0 is queued. */
  lemma EverythingReported(es: seq<Event>, t: Tag)
    requires FreshRun(NEW_SESSION, es) && NeverStrands(NEW_SESSION, es)
    requires var l := Run(NEW_SESSION, es); Has(l, 0) && 0 !in FirstQueue(l)
    ensures var l := Step(Run(NEW_SESSION, es), Deactivate(0));
            Occurrences(l.reported, t) == Occurrences(l.submitted, t)
  {
    hide Run, FreshRun, NeverStrands, Step, Occurrences, FirstQueue;
    assert Settled(NEW_SESSION) && AllQueued(NEW_SESSION);
    SettledIffFresh(NEW_SESSION, es);
    QueuedIffNeverStrands(NEW_SESSION, es);
    var l := Run(NEW_SESSION, es);
    StepSettledIff(l, Deactivate(0));
    DeactivationSettlesIff(l);
    assert Balanced(Step(l, Deactivate(0)), t);
  }

  /** A task can be stranded: here a head answer takes the first of two tasks out of the queue, and
    deactivation passes it by. */
  lemma TaskStranded()
    ensures var l := Run(NEW_SESSION, [Connect(0), Submit(1, false), Submit(2, false), HeadAnswered(0)]);
            && FirstQueue(l) == [2] && l.tasks.tags == {1, 2}
            && Step(l, Deactivate(0)).tasks.tags == {1} && Step(l, Deactivate(0)).reported == [2]
  {
    hide Drained;
    var l := HeadTaken();
    StrandedDrain(l);
  }

  /** Two tasks, the first taken out of the queue. */
  lemma HeadTaken() returns (l: Life)
    ensures l == Run(NEW_SESSION, [Connect(0), Submit(1, false), Submit(2, false), HeadAnswered(0)])
    ensures Has(l, 0) && FirstQueue(l) == [2] && l.tasks == Tasks({1, 2}, {}) && l.lines[0].value.index == 0
    ensures l.reported == []
  {
    hide BuildTag, Drain;
    var l1 := Step(NEW_SESSION, Connect(0));
    var l2 := Step(l1, Submit(1, false));
    var l3 := Step(l2, Submit(2, false));
    l := Step(l3, HeadAnswered(0));
    RunCons(NEW_SESSION, Connect(0), [Submit(1, false), Submit(2, false), HeadAnswered(0)]);
    RunCons(l1, Submit(1, false), [Submit(2, false), HeadAnswered(0)]);
    RunCons(l2, Submit(2, false), [HeadAnswered(0)]);
    RunCons(l3, HeadAnswered(0), []);
    AddedPlain({}, 1);
    AddedPlain({1}, 2);
    assert l1.lines == [Some(Line(false, [], 0)), None];
    assert l2.lines[0].value.queue == [1] && l2.tasks == Tasks({1}, {});
    assert l3.lines[0].value.queue == [1, 2] && l3.tasks == Tasks({1, 2}, {});
  }

  lemma StrandedDrain(l: Life)
    requires Has(l, 0) && FirstQueue(l) == [2] && l.tasks == Tasks({1, 2}, {}) && l.lines[0].value.index == 0
    requires l.reported == []
    ensures Drained(l, 0).tasks.tags == {1} && Drained(l, 0).reported == [2]
  {
    hide BuildTag, Drain;
    var q: seq<Tag> := [2];
    assert q[1..] == [];
    DrainStep(q, l.tasks, 0);
    DrainStep([], Done(l.tasks, 2), 0);
    assert Done(l.tasks, 2).tags == {1};
    assert Drain(q, l.tasks, 0).reported == [2] + [];
  }

  lemma AddedPlain(tags: set<Tag>, tag: Tag)
    ensures Added(Tasks(tags, {}), tag, false) == Tasks(tags + {tag}, {})
  {}

  lemma RunCons(l: Life, e: Event, es: seq<Event>)
    ensures Run(l, [e] + es) == Run(Step(l, e), es)
    ensures Run(l, []) == l && [e] + [] == [e]
  {
    hide Step;
    assert ([e] + es)[1..] == es;
  }
}
