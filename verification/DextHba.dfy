/** Submission and completion in the driver extension, across sessions, task table and outgoing queue. */
module DextHba {
  import opened Words
  import opened SlotScan
  import opened Crc32cSpec
  import opened PduHeader
  import opened DextTasks
  import opened DextTags
  import opened DextTable
  import Out = DextOutgoing

  const MAX_TARGETS := 16

  datatype Session = Session(active: bool, sessionId: nat, cmdSN: u32, expCmdSN: u32)

  const CLOSED := Session(false, 0, 0, 0)

  datatype Outcome = InProcess | NotReady | NoResources

  /** The header of a command: `request` holds the bytes built from the request alone. */
  function CommandHeader(request: Header, tag: u32, cmdSN: u32, expStatSN: u32): Header {
    PutWord(PutWord(PutWord(request, TASK_TAG, tag), CMD_SN, cmdSN), EXP_STAT_SN, expStatSN)
  }

  /** Byte for byte: the tag, the command number and the acknowledged number in their places, in network order, and
    the rest as the request has it. */
  lemma CommandHeaderReadsBack(request: Header, tag: u32, cmdSN: u32, expStatSN: u32)
    ensures var h := CommandHeader(request, tag, cmdSN, expStatSN);
            && BigEndian(h[16..20]) == tag && BigEndian(h[24..28]) == cmdSN && BigEndian(h[28..32]) == expStatSN
            && h[..16] == request[..16] && h[20..24] == request[20..24] && h[32..] == request[32..]
  {
    hide Put, Le32, Swap32, BigEndian;
    var t, c, e := Le32(Swap32(tag)), Le32(Swap32(cmdSN)), Le32(Swap32(expStatSN));
    var a, b, d := request[..16], request[20..24], request[32..];
    assert request == a + request[16..20] + request[20..];
    PutBetween(a, request[16..20], request[20..], t);
    assert a + t + request[20..] == (a + t + b) + request[24..28] + request[28..];
    PutBetween(a + t + b, request[24..28], request[28..], c);
    assert a + t + b + c + request[28..] == (a + t + b + c) + request[28..32] + d;
    PutBetween(a + t + b + c, request[28..32], d, e);
    StoredBigEndian(tag);
    StoredBigEndian(cmdSN);
    StoredBigEndian(expStatSN);
    JoinedSlices(a, t, b, c, e, d);
  }

  lemma JoinedSlices(a: Bytes, t: Bytes, b: Bytes, c: Bytes, e: Bytes, d: Bytes)
    requires |a| == |d| == 16 && |t| == |b| == |c| == |e| == 4
    ensures var h := a + t + b + c + e + d;
            && h[..16] == a && h[16..20] == t && h[20..24] == b && h[24..28] == c && h[28..32] == e && h[32..] == d
  {}

  /** The command PDU that carries a task, with no data. */
  function CommandPdu(s: Session, request: Header, tag: u32): Out.Pdu {
    Out.Pdu(s.sessionId, 0, tag, CommandHeader(request, tag, s.cmdSN, s.expCmdSN), [])
  }

  lemma FirstTagAfterAdd(d: Table, target: nat, lun: nat, controllerId: nat, action: Option<nat>)
    requires !Full(d)
    ensures var a := Add(d, target, lun, controllerId, action);
            var i, f := FirstFree(d.slots, 0), FirstTag(d.slots, d.nextTag, 0);
            f != i && FirstTag(a.slots, d.nextTag, 0) == if i < f then i else f
  {
    hide NextTag;
    var a := Add(d, target, lun, controllerId, action);
    var i := FirstFree(d.slots, 0);
    assert HasTag(a.slots[i], d.nextTag);
    assert forall j :: 0 <= j < SLOTS && j != i ==> a.slots[j] == d.slots[j];
  }

  /** The NOP-Out that answers a ping of the target. */
  function NopOut(target: nat, connection: nat, taskTag: u32, transferTag: u32, cmdSN: u32, expStatSN: u32): Out.Pdu {
    var h: Header := [OP_NOP_OUT, FINAL] + Zeros(46);
    Out.Pdu(target, connection, 0,
            PutWord(PutWord(PutWord(PutWord(h, TASK_TAG, taskTag), TRANSFER_TAG, transferTag), CMD_SN, cmdSN),
                    EXP_STAT_SN, expStatSN), [])
  }

  /** Byte for byte. */
  lemma NopOutReadsBack(target: nat, connection: nat, taskTag: u32, transferTag: u32, cmdSN: u32, expStatSN: u32)
    ensures var h := NopOut(target, connection, taskTag, transferTag, cmdSN, expStatSN).header;
            && h[0] == 0x00 && h[1] == 0x80 && h[2..16] == Zeros(14)
            && BigEndian(h[16..20]) == taskTag && BigEndian(h[20..24]) == transferTag
            && BigEndian(h[24..28]) == cmdSN && BigEndian(h[28..32]) == expStatSN && h[32..] == Zeros(16)
  {
    hide Put, Le32, Swap32, BigEndian;
    var f: Bytes := [OP_NOP_OUT, FINAL] + Zeros(14);
    var i, t, c, e := Le32(Swap32(taskTag)), Le32(Swap32(transferTag)), Le32(Swap32(cmdSN)), Le32(Swap32(expStatSN));
    assert [OP_NOP_OUT, FINAL] + Zeros(46) == f + Zeros(4) + Zeros(28);
    PutBetween(f, Zeros(4), Zeros(28), i);
    assert f + i + Zeros(28) == (f + i) + Zeros(4) + Zeros(24);
    PutBetween(f + i, Zeros(4), Zeros(24), t);
    assert f + i + t + Zeros(24) == (f + i + t) + Zeros(4) + Zeros(20);
    PutBetween(f + i + t, Zeros(4), Zeros(20), c);
    assert f + i + t + c + Zeros(20) == (f + i + t + c) + Zeros(4) + Zeros(16);
    PutBetween(f + i + t + c, Zeros(4), Zeros(16), e);
    StoredBigEndian(taskTag);
    StoredBigEndian(transferTag);
    StoredBigEndian(cmdSN);
    StoredBigEndian(expStatSN);
    JoinedSlices(f, i, t, c, e, Zeros(16));
    assert f[0] == 0x00 && f[1] == 0x80 && f[2..] == Zeros(14);
  }

  // ----- The whole

  /** Sessions, pending tasks and outgoing PDUs. */
  datatype Core = Core(sessions: seq<Session>, tasks: Table, queue: Out.Queue)

  predicate Open(c: Core, target: nat) { target < |c.sessions| && c.sessions[target].active }

  /** A command uses up a number of its session, whether or not the queue takes it. */
  function Submitted(c: Core, target: nat, lun: nat, controllerId: nat, action: Option<nat>, request: Header): Core {
    if !Open(c, target) || Full(c.tasks) then c
    else Core(NextNumber(c.sessions, target), Add(c.tasks, target, lun, controllerId, action),
              Out.Enqueue(c.queue, CommandPdu(c.sessions[target], request, c.tasks.nextTag)))
  }

  /** The PDU that entered the queue last. */
  function Last(q: Out.Queue): Out.Pdu
    requires q.entered != []
  {
    q.entered[|q.entered| - 1].pdu
  }

  /** A command PDU is that of a task: it names the target's session, carries the tag of the task, the next command
    number of the session and what it acknowledges, and is otherwise as the request has it. */
  ghost predicate Commands(p: Out.Pdu, s: Session, tag: u32, request: Header) {
    && p.session == s.sessionId && p.connection == 0 && p.tag == tag && p.data == []
    && BigEndian(p.header[16..20]) == tag
    && BigEndian(p.header[24..28]) == s.cmdSN && BigEndian(p.header[28..32]) == s.expCmdSN
    && p.header[..16] == request[..16] && p.header[20..24] == request[20..24] && p.header[32..] == request[32..]
  }

  lemma CommandsTask(s: Session, request: Header, tag: u32)
    ensures Commands(CommandPdu(s, request, tag), s, tag, request) && CommandPdu(s, request, tag).data == []
  {
    hide CommandHeader, BigEndian;
    CommandHeaderReadsBack(request, tag, s.cmdSN, s.expCmdSN);
  }

  /** What a submission comes to: the task waits in the first free slot under the next tag, the session has used up one
    command number, and unless 64 PDUs wait already, the command of that task has entered the queue. */
  ghost predicate TaskSubmitted(c: Core, after: Core, target: nat, lun: nat, controllerId: nat, action: Option<nat>,
                                request: Header)
    requires Open(c, target)
  {
    var i := FirstFree(c.tasks.slots, 0);
    && i < 256 && after.tasks.slots[i].Some?
    && var task := after.tasks.slots[i].value;
    && task.target == target && task.lun == lun && task.controllerId == controllerId && task.action == action
    && task.tag == c.tasks.nextTag
    && after.sessions == c.sessions[target := c.sessions[target].(cmdSN := (c.sessions[target].cmdSN + 1) % 0x1_0000_0000)]
    && (|Out.Held(c.queue.slots)| < 64 ==>
          && |after.queue.entered| == |c.queue.entered| + 1
          && Commands(Last(after.queue), c.sessions[target], task.tag, request))
    && (|Out.Held(c.queue.slots)| == 64 ==> after.queue == c.queue)
  }

  lemma SubmissionIs(c: Core, target: nat, lun: nat, controllerId: nat, action: Option<nat>, request: Header)
    requires Open(c, target) && !Full(c.tasks)
    ensures TaskSubmitted(c, Submitted(c, target, lun, controllerId, action, request), target, lun, controllerId, action,
                          request)
  {
    hide Commands, CommandPdu, NextTag, Out.Enqueue, Out.Held;
    var p := CommandPdu(c.sessions[target], request, c.tasks.nextTag);
    CommandsTask(c.sessions[target], request, c.tasks.nextTag);
    Out.FailsIff(c.queue, p, true);
    EnqueueIff(c.queue, p);
  }

  lemma EnqueueIff(q: Out.Queue, p: Out.Pdu)
    requires p.data == []
    ensures if FirstFree(q.slots, 0) == Out.QUEUE_SLOTS then Out.Enqueue(q, p) == q
            else Out.Enqueue(q, p) != q && Out.Enqueue(q, p).entered == q.entered + [Out.Entry(p, |q.entered|)]
  {}

  /** A response whose bytes 16 to 19 are those of the command just queued gives the table back its earlier slots
    if and only if no task in front of the new one holds the same tag; then it completes that task. */
  lemma AnswerFindsItsTask(c: Core, target: nat, lun: nat, controllerId: nat, action: Option<nat>, request: Header,
                           answer: Header)
    requires Open(c, target) && !Full(c.tasks) && action.Some?
    requires FirstFree(c.queue.slots, 0) < Out.QUEUE_SLOTS
    requires var after := Submitted(c, target, lun, controllerId, action, request);
             after.queue.entered != [] && answer[16..20] == Last(after.queue).header[16..20]
    ensures var a := Submitted(c, target, lun, controllerId, action, request).tasks;
            var d := Respond(a, BigEndian(answer[16..20]));
            && (d.slots == c.tasks.slots <==>
                FirstFree(c.tasks.slots, 0) < FirstTag(c.tasks.slots, c.tasks.nextTag, 0))
            && (d.slots == c.tasks.slots ==> d.completed == c.tasks.completed + [c.tasks.accepted])
  {
    hide BigEndian, CommandPdu, NextTag, NextNumber, FirstTag;
    var tag := c.tasks.nextTag;
    var p := CommandPdu(c.sessions[target], request, tag);
    CommandsTask(c.sessions[target], request, tag);
    EnqueueIff(c.queue, p);
    AnswerToTag(c.tasks, target, lun, controllerId, action);
  }

  lemma AnswerToTag(d: Table, target: nat, lun: nat, controllerId: nat, action: Option<nat>)
    requires !Full(d) && action.Some?
    ensures var a := Add(d, target, lun, controllerId, action);
            && (Respond(a, d.nextTag).slots == d.slots <==>
                FirstFree(d.slots, 0) < FirstTag(d.slots, d.nextTag, 0))
            && (Respond(a, d.nextTag).slots == d.slots ==>
                  Respond(a, d.nextTag).completed == d.completed + [d.accepted])
  {
    var a := Add(d, target, lun, controllerId, action);
    var i := FirstFree(d.slots, 0);
    RespondRetiresFirst(a, d.nextTag);
    FirstTagAfterAdd(d, target, lun, controllerId, action);
    hide FirstTag, FirstFree, NextTag;
    assert a.slots[i := None] == d.slots;
  }

  function NextNumber(sessions: seq<Session>, target: nat): seq<Session>
    requires target < |sessions|
  {
    sessions[target := sessions[target].(cmdSN := Inc32(sessions[target].cmdSN))]
  }

  /** So does the answer to a ping; for a target that cannot be, it carries number 0. */
  function Pinged(c: Core, target: nat, connection: nat, taskTag: u32, transferTag: u32, expStatSN: u32): Core {
    if target >= |c.sessions|
    then c.(queue := Out.Enqueue(c.queue, NopOut(target, connection, taskTag, transferTag, 0, expStatSN)))
    else c.(sessions := NextNumber(c.sessions, target),
            queue := Out.Enqueue(c.queue, NopOut(target, connection, taskTag, transferTag,
                                                 c.sessions[target].cmdSN, expStatSN)))
  }

  /** What the answer to a ping comes to: unless 64 PDUs wait already, a NOP-Out with both tags of the ping has
    entered the queue, and the session has used up the command number it carries. */
  ghost predicate PingSubmitted(c: Core, after: Core, target: nat, connection: nat, taskTag: u32, transferTag: u32,
                                expStatSN: u32) {
    var n := if target < |c.sessions| then c.sessions[target].cmdSN else 0;
    && after.tasks == c.tasks
    && after.sessions == (if target >= |c.sessions| then c.sessions
                          else c.sessions[target := c.sessions[target].(cmdSN := (n + 1) % 0x1_0000_0000)])
    && (|Out.Held(c.queue.slots)| < 64 ==>
          && |after.queue.entered| == |c.queue.entered| + 1
          && Pongs(Last(after.queue), target, connection, taskTag, transferTag, n, expStatSN))
    && (|Out.Held(c.queue.slots)| == 64 ==> after.queue == c.queue)
  }

  ghost predicate Pongs(p: Out.Pdu, target: nat, connection: nat, taskTag: u32, transferTag: u32, cmdSN: u32,
                        expStatSN: u32) {
    && p.session == target && p.connection == connection && p.tag == 0 && p.data == []
    && p.header[0] == 0x00 && p.header[1] == 0x80
    && BigEndian(p.header[16..20]) == taskTag && BigEndian(p.header[20..24]) == transferTag
    && BigEndian(p.header[24..28]) == cmdSN && BigEndian(p.header[28..32]) == expStatSN
  }

  lemma PongPongs(target: nat, connection: nat, taskTag: u32, transferTag: u32, cmdSN: u32, expStatSN: u32)
    ensures var p := NopOut(target, connection, taskTag, transferTag, cmdSN, expStatSN);
            p.data == [] && Pongs(p, target, connection, taskTag, transferTag, cmdSN, expStatSN)
  {
    NopOutReadsBack(target, connection, taskTag, transferTag, cmdSN, expStatSN);
    hide BigEndian, PutWord;
  }

  lemma PingIs(c: Core, target: nat, connection: nat, taskTag: u32, transferTag: u32, expStatSN: u32)
    ensures PingSubmitted(c, Pinged(c, target, connection, taskTag, transferTag, expStatSN), target, connection, taskTag,
                          transferTag, expStatSN)
  {
    hide Pongs, NopOut, Out.Enqueue, Out.Held;
    var n := if target < |c.sessions| then c.sessions[target].cmdSN else 0;
    var p := NopOut(target, connection, taskTag, transferTag, n, expStatSN);
    PongPongs(target, connection, taskTag, transferTag, n, expStatSN);
    Out.FailsIff(c.queue, p, true);
    EnqueueIff(c.queue, p);
  }

  class Hba {
    const sessions: array<Session>
    const tasks: PendingTasks
    const outgoing: Out.OutgoingQueue

    ghost predicate Valid() {
      sessions.Length == MAX_TARGETS && tasks.Valid() && outgoing.Valid()
    }

    constructor ()
      ensures Valid() && fresh(sessions) && fresh(tasks) && fresh(tasks.slots)
      ensures fresh(outgoing) && fresh(outgoing.slots)
      ensures tasks.View() == INITIAL && outgoing.View() == Out.EMPTY
      ensures forall t :: 0 <= t < MAX_TARGETS ==> sessions[t] == CLOSED
    {
      var ss := new Session[MAX_TARGETS](_ => CLOSED);
      var ts := new PendingTasks();
      var q := new Out.OutgoingQueue();
      sessions, tasks, outgoing := ss, ts, q;
    }

    ghost function View(): Core
      requires Valid()
      reads sessions, tasks, tasks.slots, outgoing, outgoing.slots
    {
      Core(sessions[..], tasks.View(), outgoing.View())
    }

    predicate Ready(target: nat)
      requires Valid()
      reads sessions
    {
      target < MAX_TARGETS && sessions[target].active
    }

    /** A task is turned away when its target has no session or the table is full. Otherwise it is
      accepted, uses up a command number, and its command PDU is offered to the outgoing queue,
      which drops it without a word if 64 PDUs are waiting. */
    method ProcessParallelTask(target: nat, lun: nat, controllerId: nat, action: Option<nat>, request: Header)
      returns (r: Outcome)
      requires Valid()
      modifies sessions, tasks, tasks.slots, outgoing, outgoing.slots
      ensures r == if !old(Ready(target)) then NotReady
                   else if old(Full(tasks.View())) then NoResources else InProcess
      ensures View() == Submitted(old(View()), target, lun, controllerId, action, request)
      ensures r == InProcess ==>
                TaskSubmitted(old(View()), View(), target, lun, controllerId, action, request)
    {
      hide Out.Enqueue, Out.Held, Inc32, FirstFree, NextTag, TaskSubmitted, CommandPdu;
      if Ready(target) && !Full(tasks.View()) {
        SubmissionIs(View(), target, lun, controllerId, action, request);
      }
      if target >= MAX_TARGETS || !sessions[target].active {
        return NotReady;
      }
      var index := tasks.Accept(target, lun, controllerId, action);
      if index < 0 {
        return NoResources;
      }
      var s := sessions[target];
      var pdu := CommandPdu(s, request, tasks.slots[index].value.tag);
      sessions[target] := s.(cmdSN := Inc32(s.cmdSN));
      var queued := outgoing.EnqueuePdu(pdu);
      return InProcess;
    }

    /** A ping of the target is answered with a NOP-Out. */
    method AnswerPing(target: nat, connection: nat, taskTag: u32, transferTag: u32, expStatSN: u32)
      requires Valid()
      modifies sessions, outgoing, outgoing.slots
      ensures View() == Pinged(old(View()), target, connection, taskTag, transferTag, expStatSN)
      ensures PingSubmitted(old(View()), View(), target, connection, taskTag, transferTag, expStatSN)
    {
      hide Out.Enqueue, Out.Held, Inc32, NopOut, PingSubmitted;
      PingIs(View(), target, connection, taskTag, transferTag, expStatSN);
      var cmdSN := if target < MAX_TARGETS then sessions[target].cmdSN else 0;
      var queued := outgoing.EnqueuePdu(NopOut(target, connection, taskTag, transferTag, cmdSN, expStatSN));
      if target < MAX_TARGETS {
        sessions[target] := sessions[target].(cmdSN := Inc32(sessions[target].cmdSN));
      }
    }

    /** Opens a session; numbering starts where login left it. */
    method RegisterSession(target: nat, sessionId: nat, initialCmdSN: u32) returns (ok: bool)
      requires Valid()
      modifies sessions
      ensures ok <==> target < 16
      ensures sessions[..] ==
              if ok then old(sessions[..])[target := Session(true, sessionId, initialCmdSN, initialCmdSN)]
                              else old(sessions[..])
    {
      if target >= MAX_TARGETS {
        return false;
      }
      sessions[target] := Session(true, sessionId, initialCmdSN, initialCmdSN);
      return true;
    }

    /** Closes a session and drops its tasks; PDUs already queued for it stay queued. */
    method UnregisterSession(target: nat)
      requires Valid()
      modifies sessions, tasks, tasks.slots
      ensures target < 16 ==> sessions[..] == old(sessions[..])[target := CLOSED] && !sessions[target].active
      ensures target < MAX_TARGETS ==> tasks.View() == UnregisterFrom(old(tasks.View()), target, 0)
      ensures target >= MAX_TARGETS ==> sessions[..] == old(sessions[..]) && tasks.View() == old(tasks.View())
      ensures (target < MAX_TARGETS && old(Distinct(tasks.View().slots))) ==>
                tasks.View().slots == Without(old(tasks.View().slots), OfTarget(target))
    {
      if target < MAX_TARGETS {
        ghost var before := tasks.View();
        sessions[target] := CLOSED;
        tasks.UnregisterTarget(target);
        UnregisterClearsTarget(before, target);
      }
    }

    /** The daemon disconnects: sessions, tasks and queued PDUs are all dropped. */
    method Close()
      requires Valid()
      modifies sessions, tasks, tasks.slots, outgoing, outgoing.slots
      ensures forall t :: 0 <= t < 16 ==> sessions[t] == CLOSED && !sessions[t].active
      ensures tasks.View() == CloseFrom(old(tasks.View()), 0) && tasks.View().slots == NO_TASKS
      ensures outgoing.View() == Out.FlushFrom(old(outgoing.View()), 0)
    {
      for t := 0 to MAX_TARGETS
        invariant forall u :: 0 <= u < t ==> sessions[u] == CLOSED
        invariant tasks.View() == old(tasks.View()) && outgoing.View() == old(outgoing.View())
      {
        sessions[t] := CLOSED;
      }
      CloseEmpties(tasks.View(), 0);
      tasks.Close();
      outgoing.FreeAll();
    }

    /** A SCSI response from the daemon settles the task its header names; false if there is none. */
    method IncomingScsiResponse(header: Header) returns (found: bool)
      requires Valid()
      modifies tasks, tasks.slots
      ensures tasks.View() == Respond(old(tasks.View()), BigEndian(header[16..20]))
      ensures found <==> |tasks.retired| > |old(tasks.retired)|
    {
      hide Word, BigEndian;
      WordIsBigEndian(header, TASK_TAG);
      found := tasks.ScsiResponse(Word(header, TASK_TAG));
    }
  }
}
