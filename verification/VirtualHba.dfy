/** Sessions, connections and targets of the virtual HBA over their life. */
module VirtualHba {
  import opened Words
  import opened TaskTag
  import opened TaskQueueModel
  import opened DrainLoop
  import opened Transport
  import opened WriteTransfer
  import opened SessionSlots
  import Life = TaskLife

  datatype Errno = OK | EINVAL | EAGAIN | OTHER

  /** How opening a connection goes: the first of its resources that is missing, if any. */
  datatype Opening = Opened | NoMemory | NoTaskQueue | NoReceiver | SocketFails

  function ErrorOf(opening: Opening): Errno {
    match opening
    case Opened => OK
    case SocketFails => OTHER
    case _ => EAGAIN
  }

  // ----- The objects

  ghost function Objects(s: Session): set<object>
    reads s
  {
    {s as object}
    + (set c: Connection | c in s.connections :: c as object)
    + (set c: Connection | c in s.connections :: c.taskQueue as object)
  }

  /** The connections of a session are its own, and each receives exactly while its queue is enabled. */
  ghost predicate OwnsConnections(s: Session)
    reads s, Objects(s)
  {
    && |s.connections| == MAX_CONNECTIONS
    && OwnsConnection(s, 0) && OwnsConnection(s, 1)
  }

  ghost predicate OwnsConnection(s: Session, k: nat)
    requires k < |s.connections|
    reads s, Objects(s)
  {
    var c := s.connections[k];
    assert c in s.connections;
    c != null ==>
      && c.home == (s.sessionId, k) && c.taskQueue.home == (s.sessionId, k) && c.taskQueue.Valid()
      && c.bytesPerSecHistoryIdx < WINDOW && c.dataRecvEnabled == c.taskQueue.enabled
  }

  /** The connections of a session as far as tasks are concerned. */
  ghost function LinesOf(s: Session): (lines: seq<Option<Life.Line>>)
    requires |s.connections| == MAX_CONNECTIONS
    reads s, Objects(s)
    ensures |lines| == MAX_CONNECTIONS
  {
    var a, b := s.connections[0], s.connections[1];
    assert a in s.connections && b in s.connections;
    [if a == null then None else Some(Life.Line(a.taskQueue.enabled, a.taskQueue.queue, a.bytesPerSecHistoryIdx)),
     if b == null then None else Some(Life.Line(b.taskQueue.enabled, b.taskQueue.queue, b.bytesPerSecHistoryIdx))]
  }

  function Enabled(line: Option<Life.Line>): Option<bool> {
    if line.None? then None else Some(line.value.enabled)
  }

  function SlotOf(lines: seq<Option<Life.Line>>, active: u32, target: bool): (s: Slot)
    requires |lines| == MAX_CONNECTIONS
    ensures WellShaped(s) && s.active == active && s.target == target
  {
    Slot([Enabled(lines[0]), Enabled(lines[1])], active, target)
  }

  lemma SlotUpdate(lines: seq<Option<Life.Line>>, active: u32, target: bool, cid: nat, line: Option<Life.Line>,
                   active': u32, target': bool)
    requires |lines| == MAX_CONNECTIONS && cid < MAX_CONNECTIONS
    ensures SlotOf(lines[cid := line], active', target') ==
            var s := SlotOf(lines, active, target);
            s.(connections := s.connections[cid := Enabled(line)], active := active', target := target')
  {}

  lemma SlotKept(lines: seq<Option<Life.Line>>, active: u32, target: bool, cid: nat, line: Life.Line)
    requires |lines| == MAX_CONNECTIONS && cid < MAX_CONNECTIONS
    requires lines[cid].Some? && lines[cid].value.enabled == line.enabled
    ensures SlotOf(lines[cid := Some(line)], active, target) == SlotOf(lines, active, target)
  {}

  /** What a live session amounts to: its connections and its count of active ones. */
  datatype State = State(lines: seq<Option<Life.Line>>, active: u32)

  /** The tasks a drain has found are gone from the session's and reported, in order. */
  ghost predicate Rejected(d: Drained, sid: nat, before: seq<Tasks>, after: seq<Tasks>,
                           reports: seq<seq<Tag>>, newReports: seq<seq<Tag>>)
  {
    && sid < |before| && sid < |reports|
    && after == before[sid := d.tasks] && newReports == reports[sid := reports[sid] + d.reported]
  }

  lemma UpdateTwice<T>(s: seq<T>, i: nat, x: T, y: T)
    requires i < |s|
    ensures s[i := x][i := y] == s[i := y]
  {}

  /** What a broken connection means for the tasks of its session. */
  function AfterConnectionTimeout(l: Life.Life, cid: nat, client: bool): Life.Life {
    if Life.Has(l, 0) && Life.Has(l, 1) then
      var d := Life.Step(l, Life.Deactivate(cid));
      if client then d else Life.Step(d, Life.Release(cid))
    else
      var d := Life.Step(Life.Step(l, Life.Deactivate(0)), Life.Deactivate(1));
      if client then d else Life.Step(Life.Step(d, Life.Release(0)), Life.Release(1))
  }

  class Hba {
    var sessionList: seq<Session?>
    var targetList: map<string, nat>
    /** The SCSI targets the driver stack currently knows. */
    var targets: set<nat>
    /** The SCSI tasks outstanding per session. */
    var tasks: seq<Tasks>
    /** The tags submitted by the driver stack, and those reported back to it, per session. */
    ghost var submitted: seq<seq<Tag>>
    ghost var reported: seq<seq<Tag>>
    ghost var Repr: set<object>

    /** The objects of all sessions, by kind. */
    ghost function Sessions(): set<Session>
      reads this
    {
      set s: Session | s in Repr
    }

    ghost function Connections(): set<Connection>
      reads this
    {
      set c: Connection | c in Repr
    }

    ghost function Queues(): set<TaskQueue>
      reads this
    {
      set q: TaskQueue | q in Repr
    }

    ghost predicate Valid()
      reads this, Repr
    {
      && this in Repr && |sessionList| == |tasks| == |submitted| == |reported| == MAX_SESSIONS
      && (forall i :: 0 <= i < MAX_SESSIONS && sessionList[i] != null ==>
            && sessionList[i] in Repr && Objects(sessionList[i]) <= Repr && sessionList[i].sessionId == i
            && |sessionList[i].connections| == MAX_CONNECTIONS && OwnsConnections(sessionList[i]))
    }

    ghost function StateAt(i: nat): (state: Option<State>)
      requires Valid()
      reads this, Repr
      ensures state.Some? ==> |state.value.lines| == MAX_CONNECTIONS
    {
      if i >= MAX_SESSIONS || sessionList[i] == null then None
      else Some(State(LinesOf(sessionList[i]), sessionList[i].numActiveConnections))
    }

    /** A session slot, if it is live. */
    ghost function View(i: nat): Option<Slot>
      requires Valid()
      reads this, Repr
    {
      if StateAt(i) == None then None
      else Some(SlotOf(StateAt(i).value.lines, StateAt(i).value.active, i in targets))
    }

    /** The tasks of a session slot. */
    ghost function LifeOf(sid: nat): Life.Life
      requires Valid()
      reads this, Repr
    {
      if sid >= MAX_SESSIONS then Life.NEW_SESSION
      else Life.Life(tasks[sid], submitted[sid], reported[sid],
                     if StateAt(sid) == None then [None, None] else StateAt(sid).value.lines)
    }

    /** Immediate data is bounded by both the segment limit and the first burst, and by nothing less. */
    ghost predicate ImmediateDataSet(sid: nat, cid: nat)
      requires Valid() && sid < MAX_SESSIONS && cid < MAX_CONNECTIONS
      reads this, Repr
    {
      var s := sessionList[sid];
      s != null && s.connections[cid] != null
      && var c := s.connections[cid];
      && c.immediateDataLength <= c.maxSendDataSegmentLength && c.immediateDataLength <= s.firstBurstLength
      && (c.immediateDataLength == c.maxSendDataSegmentLength || c.immediateDataLength == s.firstBurstLength)
    }

    /** The bytes the first connection has yet to transfer. */
    ghost function ToTransfer(sid: nat): u64
      requires Valid() && View(sid).Some? && Has(View(sid).value, 0)
      reads this, Repr
    {
      sessionList[sid].connections[0].dataToTransfer
    }

    ghost function Live(): set<nat>
      reads this
    {
      set i: nat | i < |sessionList| && sessionList[i] != null
    }

    constructor ()
      ensures Valid() && Bijective(targetList, Live()) && targetList == map[] && targets == {}
      ensures forall i :: View(i) == None && LifeOf(i) == Life.NEW_SESSION
    {
      sessionList := seq(MAX_SESSIONS, _ => null);
      targetList, targets := map[], {};
      submitted, reported := seq(MAX_SESSIONS, _ => []), seq(MAX_SESSIONS, _ => []);
      tasks := seq(MAX_SESSIONS, _ => NO_OUTSTANDING);
      Repr := {this};
    }

    // ----- Draining

    /** Completes an outstanding task towards the driver stack; each thirtieth that transfers data queues a probe. */
    method CompleteParallelTask(sid: nat, connection: Connection, tag: Tag)
      requires sid < |tasks| && sid < |reported| && tag in tasks[sid].tags
      requires connection.taskQueue.Valid() && connection.bytesPerSecHistoryIdx < WINDOW
      modifies this`tasks, this`reported, connection`bytesPerSecHistoryIdx, connection.taskQueue
      ensures connection.taskQueue.Valid() && connection.taskQueue.enabled == old(connection.taskQueue.enabled)
      ensures connection.bytesPerSecHistoryIdx < WINDOW
      ensures (connection.taskQueue.queue, connection.bytesPerSecHistoryIdx) ==
              AfterCompletion(old(connection.taskQueue.queue), old(tag in tasks[sid].data),
                              old(connection.bytesPerSecHistoryIdx))
      ensures connection.taskQueue.queue == old(connection.taskQueue.queue)
                + if old(tag in tasks[sid].data && connection.bytesPerSecHistoryIdx == 29) then [0x0100_0000] else []
      ensures connection.bytesPerSecHistoryIdx ==
              if old(tag in tasks[sid].data) then (old(connection.bytesPerSecHistoryIdx) + 1) % 30
              else old(connection.bytesPerSecHistoryIdx)
      ensures tasks == old(tasks)[sid := Done(old(tasks)[sid], tag)]
      ensures tasks[sid].tags == old(tasks)[sid].tags - {tag} && tasks[sid].data == old(tasks)[sid].data
      ensures reported == old(reported)[sid := old(reported)[sid] + [tag]]
    {
      ProbeIs();
      hide BuildTag, Inv;
      if tag in tasks[sid].data {
        connection.bytesPerSecHistoryIdx := connection.bytesPerSecHistoryIdx + 1;
        if connection.bytesPerSecHistoryIdx == WINDOW {
          connection.bytesPerSecHistoryIdx := 0;
          connection.taskQueue.QueueTask(LATENCY_TAG);
        }
      }
      tasks := tasks[sid := Done(tasks[sid], tag)];
      reported := reported[sid := reported[sid] + [tag]];
    }

    /** One round of the drain loop: the head is removed, and reported if it is outstanding.  Tag 0, the
      empty queue's answer, ends the loop; any other round makes it shorter. */
    method DrainHead(sid: nat, connection: Connection) returns (tag: Tag, ghost found: seq<Tag>)
      requires sid < |tasks| && sid < |reported|
      requires connection.taskQueue.Valid() && connection.bytesPerSecHistoryIdx < WINDOW
      modifies this`tasks, this`reported, connection`bytesPerSecHistoryIdx, connection.taskQueue
      ensures connection.taskQueue.Valid() && connection.taskQueue.enabled == old(connection.taskQueue.enabled)
      ensures connection.bytesPerSecHistoryIdx < WINDOW && |tasks| == old(|tasks|)
      ensures tasks == old(tasks)[sid := tasks[sid]]
      ensures reported == old(reported)[sid := old(reported)[sid] + found]
      ensures var d := Drain(old(connection.taskQueue.queue), old(tasks)[sid], old(connection.bytesPerSecHistoryIdx));
              if tag == 0
              then d == Drained(connection.taskQueue.queue, tasks[sid], connection.bytesPerSecHistoryIdx, [])
                   && found == []
              else var rest := Drain(connection.taskQueue.queue, tasks[sid], connection.bytesPerSecHistoryIdx);
                   d == rest.(reported := found + rest.reported)
      ensures tag != 0 ==> |tasks[sid].tags| < old(|tasks[sid].tags|) ||
                           (tasks[sid] == old(tasks[sid])
                            && |connection.taskQueue.queue| < old(|connection.taskQueue.queue|))
    {
      hide BuildTag, Inv, Drain, AfterCompletion, Step;
      DrainStep(connection.taskQueue.queue, tasks[sid], connection.bytesPerSecHistoryIdx);
      found := [];
      assert reported[sid] + found == reported[sid];
      tag := connection.taskQueue.CompleteCurrentTask(DrainRound);
      if tag == 0 {
        return;
      }
      ghost var rest := Drain(connection.taskQueue.queue, tasks[sid], connection.bytesPerSecHistoryIdx);
      assert [] + rest.reported == rest.reported;
      if tag in tasks[sid].tags {
        Smaller(tasks[sid], tag);
        CompleteParallelTask(sid, connection, tag);
        found := [tag];
      }
    }

    /** The drain loop of DeactivateConnection. */
    method DrainQueue(sid: nat, connection: Connection)
      requires sid < |tasks| && sid < |reported|
      requires connection.taskQueue.Valid() && connection.bytesPerSecHistoryIdx < WINDOW
      modifies this`tasks, this`reported, connection`bytesPerSecHistoryIdx, connection.taskQueue
      ensures connection.taskQueue.Valid() && connection.taskQueue.enabled == old(connection.taskQueue.enabled)
      ensures connection.bytesPerSecHistoryIdx < WINDOW
      ensures var d := Drain(old(connection.taskQueue.queue), old(tasks)[sid], old(connection.bytesPerSecHistoryIdx));
              && connection.taskQueue.queue == d.queue && connection.bytesPerSecHistoryIdx == d.index
              && Rejected(d, sid, old(tasks), tasks, old(reported), reported)
    {
      hide BuildTag, Inv, Drain;
      ghost var all: seq<Tag> := [];
      ghost var d := Drain(connection.taskQueue.queue, tasks[sid], connection.bytesPerSecHistoryIdx);
      assert reported[sid] + all == reported[sid];
      while true
        invariant connection.taskQueue.Valid() && connection.taskQueue.enabled == old(connection.taskQueue.enabled)
        invariant sid < |tasks| && connection.bytesPerSecHistoryIdx < WINDOW
        invariant tasks == old(tasks)[sid := tasks[sid]]
        invariant reported == old(reported)[sid := old(reported)[sid] + all]
        invariant var rest := Drain(connection.taskQueue.queue, tasks[sid], connection.bytesPerSecHistoryIdx);
                  d == rest.(reported := all + rest.reported)
        decreases |tasks[sid].tags|, |connection.taskQueue.queue|
      {
        ghost var left, sofar := tasks[sid], old(reported)[sid] + all;
        ghost var found;
        var tag;
        tag, found := DrainHead(sid, connection);
        UpdateTwice(old(tasks), sid, left, tasks[sid]);
        UpdateTwice(old(reported), sid, sofar, sofar + found);
        assert sofar + found == old(reported)[sid] + (all + found);
        ghost var rest := Drain(connection.taskQueue.queue, tasks[sid], connection.bytesPerSecHistoryIdx);
        assert all + (found + rest.reported) == (all + found) + rest.reported;
        all := all + found;
        if tag == 0 {
          break;
        }
      }
      assert d.reported == all;
    }

    // ----- One connection

    ghost predicate At(sid: nat, session: Session)
      reads this
    {
      sid < |sessionList| && sessionList[sid] == session
    }

    /** The part of DeactivateConnection behind its argument checks. */
    method Deactivate(sid: nat, session: Session, connection: Connection)
      requires sid < |tasks| && sid < |reported|
      requires connection.taskQueue.Valid() && connection.bytesPerSecHistoryIdx < WINDOW
      modifies this`targets, this`tasks, this`reported, session`numActiveConnections
      modifies connection`dataRecvEnabled, connection`bytesPerSecHistoryIdx, connection.taskQueue
      ensures connection.taskQueue.Valid() && connection.bytesPerSecHistoryIdx < WINDOW
      ensures !connection.taskQueue.enabled && !connection.dataRecvEnabled
      ensures |tasks| == old(|tasks|) && |reported| == old(|reported|)
      ensures session.numActiveConnections == Dec32(old(session.numActiveConnections))
      ensures targets == if session.numActiveConnections == 0 then old(targets) - {sid} else old(targets)
      ensures var d := Drain(old(connection.taskQueue.queue), old(tasks)[sid], old(connection.bytesPerSecHistoryIdx));
              && connection.taskQueue.queue == d.queue && connection.bytesPerSecHistoryIdx == d.index
              && Rejected(d, sid, old(tasks), tasks, old(reported), reported)
    {
      hide BuildTag, Inv, Drain;
      connection.dataRecvEnabled := false;
      connection.taskQueue.SetEnabled(false);
      DrainReports(connection.taskQueue.queue, tasks[sid], connection.bytesPerSecHistoryIdx);
      DrainQueue(sid, connection);
      session.numActiveConnections := Dec32(session.numActiveConnections);
      if session.numActiveConnections == 0 {
        targets := targets - {sid};
      }
    }

    /** The objects of different slots are disjoint. */
    lemma Separate(sid: nat, session: Session, i: nat, other: Session)
      requires Valid() && At(sid, session) && At(i, other) && i != sid
      ensures Objects(session) !! Objects(other)
      ensures this as object !in Objects(session)
    {
      hide Inv;
      assert OwnsConnections(session) && OwnsConnections(other);
      forall c: Connection | c in session.connections
        ensures c.home.0 == sid && c.taskQueue.home.0 == sid
      {
        if c == session.connections[0] {
          assert OwnsConnection(session, 0);
        } else {
          assert c == session.connections[1];
          assert OwnsConnection(session, 1);
        }
      }
      forall c: Connection | c in other.connections
        ensures c.home.0 == i && c.taskQueue.home.0 == i
      {
        if c == other.connections[0] {
          assert OwnsConnection(other, 0);
        } else {
          assert c == other.connections[1];
          assert OwnsConnection(other, 1);
        }
      }
    }

    /** The objects of a session are no other session's. */
    ghost predicate Apart(sid: nat, session: Session)
      requires Valid()
      reads this, Repr, Objects(session)
    {
      forall i :: 0 <= i < MAX_SESSIONS && i != sid && sessionList[i] != null ==>
        Objects(session) !! Objects(sessionList[i]) && this as object !in Objects(sessionList[i])
    }

    lemma AllSeparate(sid: nat, session: Session)
      requires Valid() && At(sid, session)
      ensures Apart(sid, session)
    {
      forall i | 0 <= i < MAX_SESSIONS && i != sid && sessionList[i] != null
        ensures Objects(session) !! Objects(sessionList[i]) && this as object !in Objects(sessionList[i])
      {
        Separate(sid, session, i, sessionList[i]);
        Separate(i, sessionList[i], sid, session);
      }
    }

    /** Work on the objects of one session leaves the other sessions as they are. */
    twostate lemma OthersKept(sid: nat)
      requires old(Valid()) && sessionList == old(sessionList) && sid < MAX_SESSIONS && sessionList[sid] != null
      requires |tasks| == |submitted| == |reported| == MAX_SESSIONS && old(Repr) <= Repr
      requires Objects(sessionList[sid]) <= Repr && OwnsConnections(sessionList[sid])
      requires old(Apart(sid, sessionList[sid]))
      requires unchanged(old(Repr) - {this} - old(Objects(sessionList[sid])))
      ensures Valid()
      ensures forall i :: i != sid ==> StateAt(i) == old(StateAt(i))
    {
      hide Inv, BuildTag;
    }

    lemma Reachable(sid: nat, session: Session, cid: nat, connection: Connection)
      requires Valid() && At(sid, session) && cid < MAX_CONNECTIONS && session.connections[cid] == connection
      ensures Objects(session) <= Repr
      ensures {session as object, connection, connection.taskQueue} <= Objects(session)
      ensures OwnsConnection(session, cid) && session.sessionId == sid
      ensures session.connections[1 - cid] != null ==>
                session.connections[1 - cid] != connection &&
                session.connections[1 - cid].taskQueue != connection.taskQueue
    {
      hide Inv;
      assert connection in session.connections;
      assert OwnsConnection(session, 0) && OwnsConnection(session, 1);
    }

    /** The same, seen from the session that owns the connection. */
    method DeactivateOwn(sid: nat, session: Session, cid: nat, connection: Connection)
      requires sid < |tasks| && sid < |reported|
      requires OwnsConnections(session) && cid < MAX_CONNECTIONS && session.connections[cid] == connection
      modifies this`targets, this`tasks, this`reported, session`numActiveConnections
      modifies connection`dataRecvEnabled, connection`bytesPerSecHistoryIdx, connection.taskQueue
      ensures OwnsConnections(session) && Objects(session) == old(Objects(session))
      ensures |tasks| == old(|tasks|) && |reported| == old(|reported|)
      ensures LinesOf(session) == old(LinesOf(session))[cid :=
                Some(Life.Line(false, connection.taskQueue.queue, connection.bytesPerSecHistoryIdx))]
      ensures var d := Drain(old(connection.taskQueue.queue), old(tasks)[sid], old(connection.bytesPerSecHistoryIdx));
              && connection.taskQueue.queue == d.queue && connection.bytesPerSecHistoryIdx == d.index
              && Rejected(d, sid, old(tasks), tasks, old(reported), reported)
      ensures session.numActiveConnections == Dec32(old(session.numActiveConnections))
      ensures targets == if session.numActiveConnections == 0 then old(targets) - {sid} else old(targets)
    {
      hide Drain, Inv, BuildTag;
      assert OwnsConnection(session, 0) && OwnsConnection(session, 1);
      Deactivate(sid, session, connection);
      assert OwnsConnection(session, 0) && OwnsConnection(session, 1);
    }

    method DeactivateState(sid: nat, session: Session, cid: nat, connection: Connection)
      requires Valid() && At(sid, session) && cid < MAX_CONNECTIONS && session.connections[cid] == connection
      modifies this`targets, this`tasks, this`reported, session`numActiveConnections
      modifies connection`dataRecvEnabled, connection`bytesPerSecHistoryIdx, connection.taskQueue
      ensures Valid() && old(StateAt(sid)).Some? && old(StateAt(sid)).value.lines[cid].Some?
      ensures var state := old(StateAt(sid)).value;
              var line := state.lines[cid].value;
              var d := Drain(line.queue, old(tasks)[sid], line.index);
              && StateAt(sid) ==
                 Some(State(state.lines[cid := Some(Life.Line(false, d.queue, d.index))], Dec32(state.active)))
              && Rejected(d, sid, old(tasks), tasks, old(reported), reported)
              && targets == if Dec32(state.active) == 0 then old(targets) - {sid} else old(targets)
      ensures forall i :: i != sid ==> StateAt(i) == old(StateAt(i))
    {
      hide Drain, Inv, BuildTag, Objects, Dec32;
      AllSeparate(sid, session);
      Reachable(sid, session, cid, connection);
      DeactivateOwn(sid, session, cid, connection);
      OthersKept(sid);
    }

    method DeactivateAt(sid: nat, session: Session, cid: nat, connection: Connection)
      requires Valid() && At(sid, session) && cid < MAX_CONNECTIONS && session.connections[cid] == connection
      modifies this`targets, this`tasks, this`reported, session`numActiveConnections
      modifies connection`dataRecvEnabled, connection`bytesPerSecHistoryIdx, connection.taskQueue
      ensures Valid()
      ensures LifeOf(sid) == Life.Step(old(LifeOf(sid)), Life.Deactivate(cid))
      ensures View(sid) == Some(AfterDeactivate(old(View(sid)).value, cid))
      ensures targets - {sid} == old(targets) - {sid}
      ensures forall i :: i != sid ==> View(i) == old(View(i)) && LifeOf(i) == old(LifeOf(i))
    {
      hide Drain, Valid, StateAt, SlotOf, Life.Step;
      SlotInBounds(sid, session);
      ghost var before, state, target := LifeOf(sid), StateAt(sid).value, sid in targets;
      DeactivateState(sid, session, cid, connection);
      SlotUpdate(state.lines, state.active, target, cid, StateAt(sid).value.lines[cid],
                 Dec32(state.active), sid in targets);
      DeactivateSteps(before, LifeOf(sid), cid);
    }

    lemma SlotInBounds(sid: nat, session: Session)
      requires Valid() && At(sid, session)
      ensures sid < MAX_SESSIONS && StateAt(sid).Some? && |tasks| == |submitted| == |reported| == MAX_SESSIONS
    {}

    lemma NoSuchLine(l: Life.Life, cid: nat)
      ensures !Life.Has(l, cid) ==> Life.Step(l, Life.Deactivate(cid)) == l && Life.Step(l, Life.Release(cid)) == l
    {}

    lemma DeactivateSteps(before: Life.Life, after: Life.Life, cid: nat)
      requires Life.Has(before, cid)
      requires var line := before.lines[cid].value;
               var d := Drain(line.queue, before.tasks, line.index);
               && after.lines == before.lines[cid := Some(Life.Line(false, d.queue, d.index))]
               && after.tasks == d.tasks && after.reported == before.reported + d.reported
      requires after.submitted == before.submitted
      ensures after == Life.Step(before, Life.Deactivate(cid))
    {
      hide Drain;
    }

    /** Disables a connection, rejects the tasks waiting on it, and drops the target with the last one. */
    method DeactivateConnection(sid: nat, cid: nat) returns (error: Errno)
      requires Valid()
      modifies this`targets, this`tasks, this`reported
      modifies Sessions()`numActiveConnections, Connections()`dataRecvEnabled, Connections()`bytesPerSecHistoryIdx, Queues()
      ensures Valid() && sessionList == old(sessionList)
      ensures LifeOf(sid) == Life.Step(old(LifeOf(sid)), Life.Deactivate(cid))
      ensures error == if old(View(sid)).Some? && Has(old(View(sid)).value, cid) then OK else EINVAL
      ensures error == OK ==> View(sid) == Some(AfterDeactivate(old(View(sid)).value, cid))
      ensures forall i :: i != sid || error != OK ==> View(i) == old(View(i)) && LifeOf(i) == old(LifeOf(i))
    {
      hide Objects, OwnsConnections, Life.Step;
      NoSuchLine(LifeOf(sid), cid);
      if sid >= MAX_SESSIONS || cid >= MAX_CONNECTIONS {
        return EINVAL;
      }
      var session := sessionList[sid];
      if session == null {
        return EINVAL;
      }
      var connection := session.connections[cid];
      if connection == null {
        return EINVAL;
      }
      Reachable(sid, session, cid, connection);
      DeactivateAt(sid, session, cid, connection);
      return OK;
    }

    /** Counts down every connection of the session, enabled or not. */
    method DeactivateAllConnections(sid: nat) returns (error: Errno)
      requires Valid()
      modifies this`targets, this`tasks, this`reported
      modifies Sessions()`numActiveConnections, Connections()`dataRecvEnabled, Connections()`bytesPerSecHistoryIdx, Queues()
      ensures Valid() && sessionList == old(sessionList)
      ensures error == if old(View(sid)).Some? then OK else EINVAL
      ensures error == OK ==> View(sid) == Some(AfterDeactivateAll(old(View(sid)).value))
      ensures LifeOf(sid) == Life.Step(Life.Step(old(LifeOf(sid)), Life.Deactivate(0)), Life.Deactivate(1))
      ensures forall i :: i != sid || error != OK ==> View(i) == old(View(i)) && LifeOf(i) == old(LifeOf(i))
    {
      hide Objects, OwnsConnections, Life.Step;
      NoSuchLine(LifeOf(sid), 0);
      NoSuchLine(LifeOf(sid), 1);
      if sid >= MAX_SESSIONS || sessionList[sid] == null {
        return EINVAL;
      }
      ghost var start, life := View(sid).value, LifeOf(sid);
      for cid := 0 to MAX_CONNECTIONS
        invariant Valid() && sessionList == old(sessionList)
        invariant View(sid) == Some(if cid == 0 then start
                                    else if cid == 1 then (if Has(start, 0) then AfterDeactivate(start, 0) else start)
                                    else AfterDeactivateAll(start))
        invariant LifeOf(sid) == (if cid == 0 then life else if cid == 1 then Life.Step(life, Life.Deactivate(0))
                                  else Life.Step(Life.Step(life, Life.Deactivate(0)), Life.Deactivate(1)))
        invariant forall i :: i != sid ==> View(i) == old(View(i)) && LifeOf(i) == old(LifeOf(i))
      {
        NoSuchLine(LifeOf(sid), cid);
        if sessionList[sid].connections[cid] != null {
          var _ := DeactivateConnection(sid, cid);
        }
      }
      return OK;
    }

    /** Enables the connection, and creates the target if it is the first one; the creation may fail. */
    method Activate(sid: nat, session: Session, connection: Connection, targetCreated: bool) returns (error: Errno)
      requires connection.taskQueue.Valid()
      modifies this`targets, session`numActiveConnections
      modifies connection`immediateDataLength, connection`dataRecvEnabled, connection.taskQueue
      ensures connection.taskQueue.Valid() && connection.taskQueue.enabled == connection.dataRecvEnabled == (error == OK)
      ensures connection.taskQueue.queue == old(connection.taskQueue.queue)
      ensures connection.bytesPerSecHistoryIdx == old(connection.bytesPerSecHistoryIdx)
      ensures error == if old(session.numActiveConnections) == 0 && !targetCreated then EAGAIN else OK
      ensures session.numActiveConnections ==
              if error == OK then Inc32(old(session.numActiveConnections)) else old(session.numActiveConnections)
      ensures targets ==
              if error == OK && old(session.numActiveConnections) == 0 then old(targets) + {sid} else old(targets)
      ensures connection.immediateDataLength == Min(connection.maxSendDataSegmentLength, session.firstBurstLength)
      ensures connection.maxSendDataSegmentLength == old(connection.maxSendDataSegmentLength)
    {
      hide Inv, BuildTag, Inc32, Min;
      connection.immediateDataLength := Min(connection.maxSendDataSegmentLength, session.firstBurstLength);
      connection.taskQueue.SetEnabled(true);
      connection.dataRecvEnabled := true;
      error := OK;
      if session.numActiveConnections == 0 {
        if targetCreated {
          targets := targets + {sid};
        } else {
          connection.taskQueue.SetEnabled(false);
          connection.dataRecvEnabled := false;
          error := EAGAIN;
        }
      }
      if error == OK {
        session.numActiveConnections := Inc32(session.numActiveConnections);
      }
    }

    /** The same, seen from the session that owns the connection. */
    method ActivateOwn(sid: nat, session: Session, cid: nat, connection: Connection, targetCreated: bool)
      returns (error: Errno)
      requires OwnsConnections(session) && cid < MAX_CONNECTIONS && session.connections[cid] == connection
      modifies this`targets, session`numActiveConnections
      modifies connection`immediateDataLength, connection`dataRecvEnabled, connection.taskQueue
      ensures OwnsConnections(session) && Objects(session) == old(Objects(session))
      ensures LinesOf(session) == old(LinesOf(session))[cid :=
                Some(Life.Line(error == OK, connection.taskQueue.queue, connection.bytesPerSecHistoryIdx))]
      ensures connection.taskQueue.queue == old(connection.taskQueue.queue)
      ensures connection.bytesPerSecHistoryIdx == old(connection.bytesPerSecHistoryIdx)
      ensures error == if old(session.numActiveConnections) == 0 && !targetCreated then EAGAIN else OK
      ensures session.numActiveConnections ==
              if error == OK then Inc32(old(session.numActiveConnections)) else old(session.numActiveConnections)
      ensures targets ==
              if error == OK && old(session.numActiveConnections) == 0 then old(targets) + {sid} else old(targets)
      ensures connection.immediateDataLength == Min(connection.maxSendDataSegmentLength, session.firstBurstLength)
    {
      hide Inv, BuildTag, Inc32, Min;
      assert OwnsConnection(session, 0) && OwnsConnection(session, 1);
      error := Activate(sid, session, connection, targetCreated);
      assert OwnsConnection(session, 0) && OwnsConnection(session, 1);
    }

    method ActivateState(sid: nat, session: Session, cid: nat, connection: Connection, targetCreated: bool)
      returns (error: Errno)
      requires Valid() && At(sid, session) && cid < MAX_CONNECTIONS && session.connections[cid] == connection
      modifies this`targets, session`numActiveConnections
      modifies connection`immediateDataLength, connection`dataRecvEnabled, connection.taskQueue
      ensures Valid() && old(StateAt(sid)).Some? && old(StateAt(sid)).value.lines[cid].Some?
      ensures var state := old(StateAt(sid)).value;
              && error == (if state.active == 0 && !targetCreated then EAGAIN else OK)
              && StateAt(sid) == Some(State(
                   state.lines[cid := Some(state.lines[cid].value.(enabled := error == OK))],
                   if error == OK then Inc32(state.active) else state.active))
              && targets == if error == OK && state.active == 0 then old(targets) + {sid} else old(targets)
      ensures connection.immediateDataLength == Min(connection.maxSendDataSegmentLength, session.firstBurstLength)
      ensures forall i :: i != sid ==> StateAt(i) == old(StateAt(i))
    {
      hide Inv, BuildTag, Objects, Inc32, Min;
      AllSeparate(sid, session);
      Reachable(sid, session, cid, connection);
      error := ActivateOwn(sid, session, cid, connection, targetCreated);
      OthersKept(sid);
    }

    method ActivateAt(sid: nat, session: Session, cid: nat, connection: Connection, targetCreated: bool)
      returns (error: Errno)
      requires Valid() && At(sid, session) && cid < MAX_CONNECTIONS && session.connections[cid] == connection
      modifies this`targets, session`numActiveConnections
      modifies connection`immediateDataLength, connection`dataRecvEnabled, connection.taskQueue
      ensures Valid()
      ensures View(sid) == Some(AfterActivate(old(View(sid)).value, cid, targetCreated))
      ensures LifeOf(sid) == Life.Step(old(LifeOf(sid)), Life.Enable(cid, error == OK))
      ensures error == if old(View(sid)).value.active == 0 && !targetCreated then EAGAIN else OK
      ensures connection.immediateDataLength == Min(connection.maxSendDataSegmentLength, session.firstBurstLength)
      ensures forall i :: i != sid ==> View(i) == old(View(i)) && LifeOf(i) == old(LifeOf(i))
    {
      hide Valid, StateAt, SlotOf;
      SlotInBounds(sid, session);
      ghost var state, target := StateAt(sid).value, sid in targets;
      error := ActivateState(sid, session, cid, connection, targetCreated);
      SlotUpdate(state.lines, state.active, target, cid, StateAt(sid).value.lines[cid],
                 StateAt(sid).value.active, sid in targets);
    }

    /** Enables a connection, creates the target with the first one, and fixes how much immediate data
      commands may carry.  The source does not range-check these identifiers. */
    method ActivateConnection(sid: nat, cid: nat, targetCreated: bool) returns (error: Errno)
      requires Valid() && sid < MAX_SESSIONS && cid < MAX_CONNECTIONS
      modifies this`targets, Sessions()`numActiveConnections
      modifies Connections()`immediateDataLength, Connections()`dataRecvEnabled, Queues()
      ensures Valid() && sessionList == old(sessionList)
      ensures !(old(View(sid)).Some? && Has(old(View(sid)).value, cid)) ==> error == EINVAL
      ensures old(View(sid)).Some? && Has(old(View(sid)).value, cid) ==>
                && View(sid) == Some(AfterActivate(old(View(sid)).value, cid, targetCreated))
                && error == (if old(View(sid)).value.active == 0 && !targetCreated then EAGAIN else OK)
                && ImmediateDataSet(sid, cid)
      ensures LifeOf(sid) ==
              if error == EINVAL then old(LifeOf(sid)) else Life.Step(old(LifeOf(sid)), Life.Enable(cid, error == OK))
      ensures forall i :: i != sid || error == EINVAL ==> View(i) == old(View(i))
      ensures forall i :: i != sid ==> LifeOf(i) == old(LifeOf(i))
    {
      hide Objects, OwnsConnections, AfterActivate, Life.Step;
      var session := sessionList[sid];
      if session == null {
        return EINVAL;
      }
      var connection := session.connections[cid];
      if connection == null {
        return EINVAL;
      }
      Reachable(sid, session, cid, connection);
      error := ActivateAt(sid, session, cid, connection, targetCreated);
    }

    /** Activates every connection slot in turn and stops at the first error.  An empty slot is an
      error, so a session whose only connection is the first one has it activated and still fails. */
    method ActivateAllConnections(sid: nat, targetCreated: bool) returns (error: Errno)
      requires Valid() && sid < MAX_SESSIONS
      modifies this`targets, Sessions()`numActiveConnections
      modifies Connections()`immediateDataLength, Connections()`dataRecvEnabled, Queues()
      ensures Valid() && sessionList == old(sessionList)
      ensures old(View(sid)) == None ==> error == EINVAL
      ensures old(View(sid)).Some? ==>
                var s := old(View(sid)).value;
                if !Has(s, 0) then error == EINVAL && View(sid) == Some(s)
                else
                  var t := AfterActivate(s, 0, targetCreated);
                  if !On(t, 0) then error == EAGAIN && View(sid) == Some(t)
                  else if !Has(t, 1) then error == EINVAL && View(sid) == Some(t)
                  else View(sid) == Some(AfterActivate(t, 1, targetCreated))
                       && error == if On(AfterActivate(t, 1, targetCreated), 1) then OK else EAGAIN
      ensures forall i :: i != sid || old(View(i)) == None ==> View(i) == old(View(i))
    {
      hide Valid, View;
      ghost var start := View(sid);
      for cid := 0 to MAX_CONNECTIONS
        invariant Valid() && sessionList == old(sessionList)
        invariant cid == 0 ==> View(sid) == start
        invariant cid > 0 ==> start.Some? && Has(start.value, 0)
        invariant cid > 0 ==> On(AfterActivate(start.value, 0, targetCreated), 0)
        invariant cid == 1 ==> View(sid) == Some(AfterActivate(start.value, 0, targetCreated))
        invariant cid == 2 ==> Has(AfterActivate(start.value, 0, targetCreated), 1)
        invariant cid == 2 ==>
                    var t := AfterActivate(AfterActivate(start.value, 0, targetCreated), 1, targetCreated);
                    View(sid) == Some(t) && On(t, 1)
        invariant forall i :: i != sid || start == None ==> View(i) == old(View(i))
      {
        error := ActivateConnection(sid, cid, targetCreated);
        if error != OK {
          return;
        }
      }
      error := OK;
    }

    // ----- The tasks of a connection

    /** Takes the head off the queue. */
    method PopOwn(session: Session, cid: nat, connection: Connection, ghost cause: Cause)
      requires OwnsConnections(session) && cid < MAX_CONNECTIONS && session.connections[cid] == connection
      modifies connection.taskQueue
      ensures OwnsConnections(session) && Objects(session) == old(Objects(session))
      ensures var lines := old(LinesOf(session));
              lines[cid].Some? && LinesOf(session) == lines[cid := Some(Life.Pop(lines[cid].value))]
    {
      hide Inv, BuildTag;
      assert OwnsConnection(session, 0) && OwnsConnection(session, 1);
      var _ := connection.taskQueue.CompleteCurrentTask(cause);
      assert OwnsConnection(session, 0) && OwnsConnection(session, 1);
    }

    method PopState(sid: nat, session: Session, cid: nat, connection: Connection, ghost cause: Cause)
      requires Valid() && At(sid, session) && cid < MAX_CONNECTIONS && session.connections[cid] == connection
      modifies connection.taskQueue
      ensures Valid() && old(StateAt(sid)).Some? && old(StateAt(sid)).value.lines[cid].Some?
      ensures var state := old(StateAt(sid)).value;
              StateAt(sid) == Some(state.(lines := state.lines[cid := Some(Life.Pop(state.lines[cid].value))]))
      ensures forall i :: i != sid ==> StateAt(i) == old(StateAt(i))
    {
      hide Inv, BuildTag, Objects;
      AllSeparate(sid, session);
      Reachable(sid, session, cid, connection);
      PopOwn(session, cid, connection, cause);
      OthersKept(sid);
    }

    method PopAt(sid: nat, session: Session, cid: nat, connection: Connection, ghost cause: Cause)
      requires Valid() && At(sid, session) && cid < MAX_CONNECTIONS && session.connections[cid] == connection
      modifies connection.taskQueue
      ensures Valid() && Life.Has(old(LifeOf(sid)), cid) && LifeOf(sid) == Life.PopHead(old(LifeOf(sid)), cid)
      ensures forall i :: View(i) == old(View(i)) && (i != sid ==> LifeOf(i) == old(LifeOf(i)))
    {
      hide Valid, StateAt, SlotOf;
      SlotInBounds(sid, session);
      ghost var state, target := StateAt(sid).value, sid in targets;
      PopState(sid, session, cid, connection, cause);
      SlotKept(state.lines, state.active, target, cid, StateAt(sid).value.lines[cid].value);
    }

    /** Reports a task to the driver stack. */
    method ReportOwn(sid: nat, session: Session, cid: nat, connection: Connection, tag: Tag)
      requires sid < |tasks| && sid < |reported| && tag in tasks[sid].tags
      requires OwnsConnections(session) && cid < MAX_CONNECTIONS && session.connections[cid] == connection
      modifies this`tasks, this`reported, connection`bytesPerSecHistoryIdx, connection.taskQueue
      ensures OwnsConnections(session) && Objects(session) == old(Objects(session))
      ensures var lines := old(LinesOf(session));
              && lines[cid].Some?
              && LinesOf(session) == lines[cid := Some(Life.AfterReport(lines[cid].value, old(tag in tasks[sid].data)))]
      ensures tasks == old(tasks)[sid := Done(old(tasks)[sid], tag)]
      ensures reported == old(reported)[sid := old(reported)[sid] + [tag]]
    {
      hide Inv, BuildTag;
      assert OwnsConnection(session, 0) && OwnsConnection(session, 1);
      CompleteParallelTask(sid, connection, tag);
      assert OwnsConnection(session, 0) && OwnsConnection(session, 1);
    }

    method ReportState(sid: nat, session: Session, cid: nat, connection: Connection, tag: Tag)
      requires Valid() && At(sid, session) && cid < MAX_CONNECTIONS && session.connections[cid] == connection
      requires sid < |tasks| && tag in tasks[sid].tags
      modifies this`tasks, this`reported, connection`bytesPerSecHistoryIdx, connection.taskQueue
      ensures Valid() && old(StateAt(sid)).Some? && old(StateAt(sid)).value.lines[cid].Some?
      ensures var state, hasData := old(StateAt(sid)).value, old(tag in tasks[sid].data);
              StateAt(sid) == Some(state.(lines :=
                state.lines[cid := Some(Life.AfterReport(state.lines[cid].value, hasData))]))
      ensures tasks == old(tasks)[sid := Done(old(tasks)[sid], tag)]
      ensures |reported| == old(|reported|) > sid && reported == old(reported)[sid := old(reported)[sid] + [tag]]
      ensures forall i :: i != sid ==> StateAt(i) == old(StateAt(i))
    {
      hide Inv, BuildTag, Objects, Life.AfterReport;
      AllSeparate(sid, session);
      Reachable(sid, session, cid, connection);
      ReportOwn(sid, session, cid, connection, tag);
      OthersKept(sid);
    }

    method ReportAt(sid: nat, session: Session, cid: nat, connection: Connection, tag: Tag)
      requires Valid() && At(sid, session) && cid < MAX_CONNECTIONS && session.connections[cid] == connection
      requires sid < |tasks| && tag in tasks[sid].tags
      modifies this`tasks, this`reported, connection`bytesPerSecHistoryIdx, connection.taskQueue
      ensures Valid() && Life.Has(old(LifeOf(sid)), cid) && LifeOf(sid) == Life.Report(old(LifeOf(sid)), cid, tag)
      ensures forall i :: View(i) == old(View(i)) && (i != sid ==> LifeOf(i) == old(LifeOf(i)))
    {
      hide Valid, StateAt, SlotOf;
      SlotInBounds(sid, session);
      ghost var state, target := StateAt(sid).value, sid in targets;
      ReportState(sid, session, cid, connection, tag);
      SlotKept(state.lines, state.active, target, cid, StateAt(sid).value.lines[cid].value);
    }

    /** Queues a new task. */
    method QueueOwn(session: Session, cid: nat, connection: Connection, tag: Tag, amount: u64)
      requires OwnsConnections(session) && cid < MAX_CONNECTIONS && session.connections[cid] == connection
      modifies connection`dataToTransfer, connection.taskQueue
      ensures OwnsConnections(session) && Objects(session) == old(Objects(session))
      ensures var lines := old(LinesOf(session));
              && lines[cid].Some?
              && LinesOf(session) == lines[cid := Some(lines[cid].value.(queue := lines[cid].value.queue + [tag]))]
      ensures connection.dataToTransfer == Plus64(old(connection.dataToTransfer), amount)
    {
      hide Inv, BuildTag, Plus64;
      assert OwnsConnection(session, 0) && OwnsConnection(session, 1);
      connection.dataToTransfer := Plus64(connection.dataToTransfer, amount);
      connection.taskQueue.QueueTask(tag);
      assert OwnsConnection(session, 0) && OwnsConnection(session, 1);
    }

    method QueueState(sid: nat, session: Session, cid: nat, connection: Connection, tag: Tag, amount: u64)
      requires Valid() && At(sid, session) && cid < MAX_CONNECTIONS && session.connections[cid] == connection
      modifies connection`dataToTransfer, connection.taskQueue
      ensures Valid() && old(StateAt(sid)).Some? && old(StateAt(sid)).value.lines[cid].Some?
      ensures var state := old(StateAt(sid)).value;
              var line := state.lines[cid].value;
              StateAt(sid) == Some(state.(lines := state.lines[cid := Some(line.(queue := line.queue + [tag]))]))
      ensures connection.dataToTransfer == Plus64(old(connection.dataToTransfer), amount)
      ensures forall i :: i != sid ==> StateAt(i) == old(StateAt(i))
    {
      hide Inv, BuildTag, Objects, Plus64;
      AllSeparate(sid, session);
      Reachable(sid, session, cid, connection);
      QueueOwn(session, cid, connection, tag, amount);
      OthersKept(sid);
    }

    method AddTask(sid: nat, tag: Tag, hasData: bool)
      requires Valid() && sid < MAX_SESSIONS
      modifies this`tasks, this`submitted
      ensures Valid() && |tasks| == old(|tasks|) > sid && |submitted| == old(|submitted|) > sid
      ensures tasks == old(tasks)[sid := Life.Added(old(tasks)[sid], tag, hasData)]
      ensures submitted == old(submitted)[sid := old(submitted)[sid] + [tag]]
      ensures forall i :: StateAt(i) == old(StateAt(i))
    {
      hide Inv, BuildTag;
      tasks := tasks[sid := Life.Added(tasks[sid], tag, hasData)];
      submitted := submitted[sid := submitted[sid] + [tag]];
    }

    method SubmitAt(sid: nat, session: Session, connection: Connection, tag: Tag, hasData: bool, amount: u64)
      requires Valid() && At(sid, session) && |session.connections| > 0 && session.connections[0] == connection
      modifies this`tasks, this`submitted, connection`dataToTransfer, connection.taskQueue
      ensures Valid() && LifeOf(sid) == Life.Step(old(LifeOf(sid)), Life.Submit(tag, hasData))
      ensures Life.Has(old(LifeOf(sid)), 0)
      ensures connection.dataToTransfer == Plus64(old(connection.dataToTransfer), amount)
      ensures forall i :: View(i) == old(View(i)) && (i != sid ==> LifeOf(i) == old(LifeOf(i)))
    {
      hide Valid, StateAt, SlotOf, Plus64;
      SlotInBounds(sid, session);
      ghost var state, target := StateAt(sid).value, sid in targets;
      QueueState(sid, session, 0, connection, tag, amount);
      SlotKept(state.lines, state.active, target, 0, StateAt(sid).value.lines[0].value);
      AddTask(sid, tag, hasData);
    }

    /** The driver stack submits a task.  It is queued on the first connection of the session, enabled
      or not, and rejected if there is none. */
    method ProcessParallelTask(sid: nat, lun: bv64, taskId: bv64, hasData: bool, amount: u64) returns (queued: bool)
      requires Valid() && sid < MAX_SESSIONS
      modifies this`tasks, this`submitted, Connections()`dataToTransfer, Queues()
      ensures Valid() && sessionList == old(sessionList)
      ensures queued <==> old(View(sid)).Some? && Has(old(View(sid)).value, 0)
      ensures LifeOf(sid) == Life.Step(old(LifeOf(sid)), Life.Submit(BuildTag(SCSI_TASK, lun, taskId), hasData))
      ensures queued ==> ToTransfer(sid) == Plus64(old(ToTransfer(sid)), amount)
      ensures queued && old(ToTransfer(sid)) + amount < 0x1_0000_0000_0000_0000 ==>
                ToTransfer(sid) == old(ToTransfer(sid)) + amount
      ensures queued ==> var tag := BuildTag(SCSI_TASK, lun, taskId);
                         && LifeOf(sid).tasks.tags == old(LifeOf(sid)).tasks.tags + {tag}
                         && (tag in LifeOf(sid).tasks.data <==> hasData)
                         && LifeOf(sid).tasks.data - {tag} == old(LifeOf(sid)).tasks.data - {tag}
      ensures forall i :: View(i) == old(View(i)) && (i != sid ==> LifeOf(i) == old(LifeOf(i)))
    {
      hide Objects, OwnsConnections, Life.Submitted, BuildTag, Plus64;
      NoFirstLine(LifeOf(sid), BuildTag(SCSI_TASK, lun, taskId), hasData);
      SubmitAdds(LifeOf(sid), BuildTag(SCSI_TASK, lun, taskId), hasData);
      var session := sessionList[sid];
      if session == null {
        return false;
      }
      var connection := session.connections[0];
      if connection == null {
        return false;
      }
      Reachable(sid, session, 0, connection);
      CountersExact(ToTransfer(sid), amount);
      SubmitAt(sid, session, connection, BuildTag(SCSI_TASK, lun, taskId), hasData, amount);
      return true;
    }

    lemma SubmitAdds(l: Life.Life, tag: Tag, hasData: bool)
      ensures Life.Has(l, 0) ==>
                var after := Life.Step(l, Life.Submit(tag, hasData)).tasks;
                && after.tags == l.tasks.tags + {tag}
                && (tag in after.data <==> hasData) && after.data - {tag} == l.tasks.data - {tag}
    {}

    lemma NoFirstLine(l: Life.Life, tag: Tag, hasData: bool)
      ensures !Life.Has(l, 0) ==> Life.Step(l, Life.Submit(tag, hasData)) == l
    {}

    /** The last PDU of a task, a response or a Data-In with status: a known task is reported and the
      head of the queue removed; for an unknown one nothing is.  `position` says which submission
      the target has answered. */
    method ProcessSCSIResponse(sid: nat, cid: nat, tag: Tag, ghost position: nat)
      requires Valid() && View(sid).Some? && Has(View(sid).value, cid)
      modifies this`tasks, this`reported, Connections()`bytesPerSecHistoryIdx, Queues()
      ensures Valid() && sessionList == old(sessionList)
      ensures LifeOf(sid) == Life.Step(old(LifeOf(sid)), Life.Response(cid, tag))
      ensures forall i :: View(i) == old(View(i)) && (i != sid ==> LifeOf(i) == old(LifeOf(i)))
    {
      hide Objects, OwnsConnections, Life.Report, Life.PopHead;
      var session := sessionList[sid];
      var connection := session.connections[cid];
      Reachable(sid, session, cid, connection);
      if tag in tasks[sid].tags {
        ReportAt(sid, session, cid, connection, tag);
        PopAt(sid, session, cid, connection, ResponseTo(position));
      }
    }

    /** A task-management response, or the answer to a latency probe. */
    method ProcessHeadAnswer(sid: nat, cid: nat, ghost cause: Cause)
      requires Valid() && View(sid).Some? && Has(View(sid).value, cid)
      modifies Queues()
      ensures Valid() && sessionList == old(sessionList)
      ensures LifeOf(sid) == Life.Step(old(LifeOf(sid)), Life.HeadAnswered(cid))
      ensures forall i :: View(i) == old(View(i)) && (i != sid ==> LifeOf(i) == old(LifeOf(i)))
    {
      hide Objects, OwnsConnections, Life.PopHead;
      Reachable(sid, sessionList[sid], cid, sessionList[sid].connections[cid]);
      PopAt(sid, sessionList[sid], cid, sessionList[sid].connections[cid], cause);
    }

    // ----- Opening and releasing

    method DropOwn(session: Session, cid: nat)
      requires OwnsConnections(session) && cid < MAX_CONNECTIONS
      modifies session`connections
      ensures OwnsConnections(session) && Objects(session) <= old(Objects(session))
      ensures |session.connections| == MAX_CONNECTIONS && session.connections[cid] == null
      ensures session.connections[1 - cid] == old(session.connections[1 - cid])
      ensures LinesOf(session) == old(LinesOf(session))[cid := None]
    {
      hide Inv;
      assert OwnsConnection(session, 0) && OwnsConnection(session, 1);
      session.connections := session.connections[cid := null];
      assert session.connections[cid] == null;
      assert forall c: Connection :: c in session.connections ==> c in old(session.connections);
      assert OwnsConnection(session, 0) && OwnsConnection(session, 1);
    }

    method DropState(sid: nat, session: Session, cid: nat, connection: Connection)
      requires Valid() && At(sid, session) && cid < MAX_CONNECTIONS && session.connections[cid] == connection
      modifies session`connections
      ensures Valid() && old(StateAt(sid)).Some?
      ensures var state := old(StateAt(sid)).value; StateAt(sid) == Some(state.(lines := state.lines[cid := None]))
      ensures forall i :: i != sid ==> StateAt(i) == old(StateAt(i))
    {
      hide Inv, BuildTag, Objects;
      AllSeparate(sid, session);
      Reachable(sid, session, cid, connection);
      DropOwn(session, cid);
      OthersKept(sid);
    }

    method DropAt(sid: nat, session: Session, cid: nat, connection: Connection)
      requires Valid() && At(sid, session) && cid < MAX_CONNECTIONS && session.connections[cid] == connection
      modifies session`connections
      ensures Valid()
      ensures var v := old(View(sid)).value; View(sid) == Some(v.(connections := v.connections[cid := None]))
      ensures LifeOf(sid) == Life.SetLine(old(LifeOf(sid)), cid, None)
      ensures forall i :: i != sid ==> View(i) == old(View(i)) && LifeOf(i) == old(LifeOf(i))
    {
      hide Valid, StateAt, SlotOf;
      SlotInBounds(sid, session);
      ghost var state, target := StateAt(sid).value, sid in targets;
      SlotUpdate(state.lines, state.active, target, cid, None, state.active, target);
      DropState(sid, session, cid, connection);
    }

    lemma ReleaseSteps(l: Life.Life, cid: nat)
      requires Life.Has(l, cid)
      ensures Life.Step(l, Life.Release(cid)) ==
              Life.SetLine(if l.lines[cid].value.enabled then Life.Step(l, Life.Deactivate(cid)) else l, cid, None)
    {}

    lemma EnabledInView(sid: nat, session: Session, cid: nat, connection: Connection)
      requires Valid() && At(sid, session) && cid < MAX_CONNECTIONS && session.connections[cid] == connection
      ensures View(sid).Some? && Has(View(sid).value, cid)
      ensures On(View(sid).value, cid) == connection.taskQueue.enabled
      ensures Life.Has(LifeOf(sid), cid) && LifeOf(sid).lines[cid].value.enabled == connection.taskQueue.enabled
    {}

    method ReleaseConnectionAt(sid: nat, session: Session, cid: nat, connection: Connection)
      requires Valid() && At(sid, session) && cid < MAX_CONNECTIONS && session.connections[cid] == connection
      modifies this`targets, this`tasks, this`reported, session`numActiveConnections, session`connections
      modifies connection`dataRecvEnabled, connection`bytesPerSecHistoryIdx, connection.taskQueue
      ensures Valid()
      ensures LifeOf(sid) == Life.Step(old(LifeOf(sid)), Life.Release(cid))
      ensures View(sid) == Some(AfterReleaseConnection(old(View(sid)).value, cid))
      ensures targets - {sid} == old(targets) - {sid}
      ensures forall i :: i != sid ==> View(i) == old(View(i)) && LifeOf(i) == old(LifeOf(i))
    {
      hide Drain, Valid, View, LifeOf, Objects, OwnsConnections;
      EnabledInView(sid, session, cid, connection);
      Reachable(sid, session, cid, connection);
      ReleaseSteps(LifeOf(sid), cid);
      if connection.taskQueue.enabled {
        DeactivateAt(sid, session, cid, connection);
      }
      DropAt(sid, session, cid, connection);
    }

    /** Releases a connection, deactivating it first if it is enabled. */
    method ReleaseConnection(sid: nat, cid: nat)
      requires Valid()
      modifies this`targets, this`tasks, this`reported, Sessions()`connections
      modifies Sessions()`numActiveConnections, Connections()`dataRecvEnabled, Connections()`bytesPerSecHistoryIdx, Queues()
      ensures Valid() && sessionList == old(sessionList)
      ensures View(sid) == if old(View(sid)).Some? && Has(old(View(sid)).value, cid)
                           then Some(AfterReleaseConnection(old(View(sid)).value, cid)) else old(View(sid))
      ensures LifeOf(sid) == Life.Step(old(LifeOf(sid)), Life.Release(cid))
      ensures targets - {sid} == old(targets) - {sid}
      ensures forall i :: i != sid ==> View(i) == old(View(i)) && LifeOf(i) == old(LifeOf(i))
    {
      hide Objects, OwnsConnections;
      if sid >= MAX_SESSIONS || cid >= MAX_CONNECTIONS {
        return;
      }
      var session := sessionList[sid];
      if session == null {
        return;
      }
      var connection := session.connections[cid];
      if connection == null {
        return;
      }
      Reachable(sid, session, cid, connection);
      ReleaseConnectionAt(sid, session, cid, connection);
    }

    method AddOwn(session: Session, cid: nat, connection: Connection)
      requires OwnsConnections(session) && cid < MAX_CONNECTIONS && session.connections[cid] == null
      requires connection.home == (session.sessionId, cid) && connection.taskQueue.home == (session.sessionId, cid)
      requires connection.taskQueue.Valid() && connection.bytesPerSecHistoryIdx < WINDOW
      requires connection.dataRecvEnabled == connection.taskQueue.enabled
      modifies session`connections
      ensures OwnsConnections(session)
      ensures Objects(session) <= old(Objects(session)) + {connection, connection.taskQueue}
      ensures session.connections == old(session.connections)[cid := connection]
      ensures LinesOf(session) == old(LinesOf(session))[cid := Some(Life.Line(
                connection.taskQueue.enabled, connection.taskQueue.queue, connection.bytesPerSecHistoryIdx))]
    {
      hide Inv;
      assert OwnsConnection(session, 0) && OwnsConnection(session, 1);
      session.connections := session.connections[cid := connection];
      assert session.connections[cid] == connection;
      assert forall c: Connection :: c in session.connections ==> c == connection || c in old(session.connections);
      assert OwnsConnection(session, 0) && OwnsConnection(session, 1);
    }

    /** The first free place for a connection, or MAX_CONNECTIONS. */
    method FreeConnection(session: Session) returns (cid: nat)
      requires |session.connections| == MAX_CONNECTIONS
      ensures cid <= MAX_CONNECTIONS && (cid < MAX_CONNECTIONS ==> session.connections[cid] == null)
      ensures forall k :: 0 <= k < cid ==> session.connections[k] != null
    {
      cid := 0;
      while cid < MAX_CONNECTIONS && session.connections[cid] != null
        invariant cid <= MAX_CONNECTIONS
        invariant forall k :: 0 <= k < cid ==> session.connections[k] != null
      {
        cid := cid + 1;
      }
    }

    method ConnectState(sid: nat, session: Session, cid: nat, connection: Connection)
      requires Valid() && At(sid, session) && cid < MAX_CONNECTIONS && session.connections[cid] == null
      requires connection.home == (sid, cid) && connection.taskQueue.home == (sid, cid)
      requires connection.taskQueue.Valid() && connection.bytesPerSecHistoryIdx < WINDOW
      requires connection.dataRecvEnabled == connection.taskQueue.enabled
      modifies this`Repr, session`connections
      ensures Valid() && Repr == old(Repr) + {connection, connection.taskQueue} && old(StateAt(sid)).Some?
      ensures session.connections == old(session.connections)[cid := connection]
      ensures var state := old(StateAt(sid)).value;
              && state.lines[cid] == None
              && StateAt(sid) == Some(state.(lines := state.lines[cid := Some(Life.Line(
                   connection.taskQueue.enabled, connection.taskQueue.queue, connection.bytesPerSecHistoryIdx))]))
      ensures forall i :: i != sid ==> StateAt(i) == old(StateAt(i))
    {
      hide Inv, BuildTag;
      AllSeparate(sid, session);
      AddOwn(session, cid, connection);
      Repr := Repr + {connection, connection.taskQueue};
      OthersKept(sid);
    }

    method ConnectAt(sid: nat, session: Session, cid: nat, connection: Connection)
      requires Valid() && At(sid, session) && cid < MAX_CONNECTIONS && session.connections[cid] == null
      requires connection.home == (sid, cid) && connection.taskQueue.home == (sid, cid) && connection.taskQueue.Valid()
      requires connection.taskQueue.queue == [] && !connection.taskQueue.enabled && !connection.dataRecvEnabled
      requires connection.bytesPerSecHistoryIdx == 0
      modifies this`Repr, session`connections
      ensures Valid() && Repr == old(Repr) + {connection, connection.taskQueue}
      ensures session.connections == old(session.connections)[cid := connection]
      ensures View(sid) == Some(SlotStep(old(View(sid)).value, Connect(cid)))
      ensures LifeOf(sid) == Life.Step(old(LifeOf(sid)), Life.Connect(cid))
      ensures forall i :: i != sid ==> View(i) == old(View(i)) && LifeOf(i) == old(LifeOf(i))
    {
      hide Valid, StateAt, Inv;
      SlotInBounds(sid, session);
      ghost var state, target := StateAt(sid).value, sid in targets;
      ConnectState(sid, session, cid, connection);
      SlotUpdate(state.lines, state.active, target, cid, StateAt(sid).value.lines[cid], state.active, target);
    }

    method OpenAt(sid: nat, session: Session, cid: nat, fails: nat -> bool, input: seq<bv8>)
      returns (connection: Connection)
      requires Valid() && At(sid, session) && cid < MAX_CONNECTIONS && session.connections[cid] == null
      modifies this`Repr, session`connections
      ensures Valid() && fresh(Repr - old(Repr)) && old(Repr) <= Repr
      ensures session.connections == old(session.connections)[cid := connection]
      ensures View(sid) == Some(SlotStep(old(View(sid)).value, Connect(cid)))
      ensures LifeOf(sid) == Life.Step(old(LifeOf(sid)), Life.Connect(cid))
      ensures forall i :: i != sid ==> View(i) == old(View(i)) && LifeOf(i) == old(LifeOf(i))
    {
      hide Valid, View, LifeOf, SlotStep, Life.Step;
      connection := new Connection(sid, cid, fails, input);
      ConnectAt(sid, session, cid, connection);
    }

    /** Opens a connection at a free place.  It is entered before its task queue, its receiver and its
      socket are set up, and taken out again if one of them fails. */
    method TryConnect(sid: nat, session: Session, cid: nat, fails: nat -> bool, input: seq<bv8>, opening: Opening)
      requires Valid() && At(sid, session) && cid < MAX_CONNECTIONS && session.connections[cid] == null
      modifies this`Repr, session`connections
      ensures Valid() && fresh(Repr - old(Repr)) && old(Repr) <= Repr
      ensures View(sid) ==
              if opening == Opened then Some(SlotStep(old(View(sid)).value, Connect(cid))) else old(View(sid))
      ensures LifeOf(sid) ==
              if opening == Opened then Life.Step(old(LifeOf(sid)), Life.Connect(cid)) else old(LifeOf(sid))
      ensures forall i :: i != sid ==> View(i) == old(View(i)) && LifeOf(i) == old(LifeOf(i))
    {
      hide Valid, View, LifeOf;
      if opening != NoMemory {
        EmptyPlace(sid, session, cid);
        var connection := OpenAt(sid, session, cid, fails, input);
        if opening != Opened {
          DropAt(sid, session, cid, connection);
          assert View(sid).value.connections == old(View(sid)).value.connections;
        }
      }
    }

    lemma EmptyPlace(sid: nat, session: Session, cid: nat)
      requires Valid() && At(sid, session) && cid < MAX_CONNECTIONS && session.connections[cid] == null
      ensures View(sid).Some? && |View(sid).value.connections| == |LifeOf(sid).lines| == MAX_CONNECTIONS
      ensures View(sid).value.connections[cid] == None && LifeOf(sid).lines[cid] == None
      ensures |session.connections| == MAX_CONNECTIONS
    {}

    /** Opens a disabled connection in the first free place, unless one of its resources is missing. */
    method CreateConnection(sid: nat, fails: nat -> bool, input: seq<bv8>, opening: Opening)
      returns (error: Errno, cid: nat)
      requires Valid()
      modifies this`Repr, Sessions()`connections
      ensures Valid() && sessionList == old(sessionList) && fresh(Repr - old(Repr)) && old(Repr) <= Repr
      ensures error == if old(View(sid)) == None then EINVAL
                       else if Has(old(View(sid)).value, 0) && Has(old(View(sid)).value, 1) then EAGAIN
                       else if opening == Opened then OK else if opening == SocketFails then OTHER else EAGAIN
      ensures error == OK ==> cid < MAX_CONNECTIONS && !Has(old(View(sid)).value, cid)
                              && (cid == 1 ==> Has(old(View(sid)).value, 0))
                              && View(sid) == Some(SlotStep(old(View(sid)).value, Connect(cid)))
                              && LifeOf(sid) == Life.Step(old(LifeOf(sid)), Life.Connect(cid))
      ensures forall i :: i != sid || error != OK ==> View(i) == old(View(i)) && LifeOf(i) == old(LifeOf(i))
    {
      hide Inv, BuildTag, Objects, OwnsConnections, SlotStep, Life.Step;
      cid := 0;
      if sid >= MAX_SESSIONS || sessionList[sid] == null {
        return EINVAL, cid;
      }
      var session := sessionList[sid];
      cid := FreeConnection(session);
      if cid == MAX_CONNECTIONS {
        return EAGAIN, cid;
      }
      TryConnect(sid, session, cid, fails, input, opening);
      error := ErrorOf(opening);
    }

    /** Every session is consistent, and only sessions have targets. */
    ghost predicate AllConsistent()
      requires Valid()
      reads this, Repr
    {
      && (forall i :: View(i).Some? ==> Consistent(View(i).value))
      && (forall i :: i in targets ==> View(i).Some?)
    }

    method FreeSlot() returns (sid: nat)
      requires Valid()
      ensures sid <= MAX_SESSIONS && (sid < MAX_SESSIONS ==> sessionList[sid] == null)
      ensures forall i :: 0 <= i < sid ==> sessionList[i] != null
    {
      sid := 0;
      while sid < MAX_SESSIONS && sessionList[sid] != null
        invariant sid <= MAX_SESSIONS
        invariant forall i :: 0 <= i < sid ==> sessionList[i] != null
      {
        sid := sid + 1;
      }
    }

    method PlaceState(sid: nat, session: Session)
      requires Valid() && sid < MAX_SESSIONS && sessionList[sid] == null
      requires session.sessionId == sid && session.connections == [null, null] && session.numActiveConnections == 0
      modifies this`sessionList, this`Repr
      ensures Valid() && Repr == old(Repr) + {session} && sessionList == old(sessionList)[sid := session]
      ensures old(StateAt(sid)) == None && StateAt(sid) == Some(State([None, None], 0))
      ensures forall i :: i != sid ==> StateAt(i) == old(StateAt(i))
    {
      hide Inv, BuildTag;
      sessionList := sessionList[sid := session];
      Repr := Repr + {session};
      assert OwnsConnection(session, 0) && OwnsConnection(session, 1);
    }

    method PlaceSession(sid: nat, session: Session)
      requires Valid() && sid < MAX_SESSIONS && sessionList[sid] == null
      requires session.sessionId == sid && session.connections == [null, null] && session.numActiveConnections == 0
      modifies this`sessionList, this`Repr
      ensures Valid() && Repr == old(Repr) + {session} && sessionList == old(sessionList)[sid := session]
      ensures View(sid) == Some(Slot([None, None], 0, sid in targets)) && LifeOf(sid) == old(LifeOf(sid))
      ensures forall i :: i != sid ==> View(i) == old(View(i)) && LifeOf(i) == old(LifeOf(i))
    {
      Lengths();
      hide Valid, StateAt;
      PlaceState(sid, session);
    }

    lemma Lengths()
      requires Valid()
      ensures |sessionList| == |tasks| == |submitted| == |reported| == MAX_SESSIONS
    {}

    method VacateState(sid: nat)
      requires Valid() && sid < MAX_SESSIONS
      modifies this`sessionList
      ensures Valid() && sessionList == old(sessionList)[sid := null] && StateAt(sid) == None
      ensures forall i :: i != sid ==> StateAt(i) == old(StateAt(i))
    {
      hide Inv, BuildTag;
      sessionList := sessionList[sid := null];
    }

    method VacateSlot(sid: nat)
      requires Valid() && sid < MAX_SESSIONS
      modifies this`sessionList
      ensures Valid() && sessionList == old(sessionList)[sid := null] && View(sid) == None
      ensures LifeOf(sid) == old(LifeOf(sid)).(lines := [None, None])
      ensures forall i :: i != sid ==> View(i) == old(View(i)) && LifeOf(i) == old(LifeOf(i))
    {
      Lengths();
      hide Valid, StateAt;
      VacateState(sid);
    }

    /** The table of names holds nothing of the sessions. */
    method SetNames(names: map<string, nat>)
      requires Valid()
      modifies this`targetList
      ensures Valid() && targetList == names
      ensures forall i :: StateAt(i) == old(StateAt(i))
    {
      hide Inv, BuildTag;
      targetList := names;
    }

    method BindName(name: string, sid: nat)
      requires Valid()
      modifies this`targetList
      ensures Valid() && targetList == old(targetList)[name := sid]
      ensures forall i :: View(i) == old(View(i)) && LifeOf(i) == old(LifeOf(i))
    {
      Lengths();
      hide Valid, StateAt;
      SetNames(targetList[name := sid]);
    }

    method UnbindName(name: string)
      requires Valid()
      modifies this`targetList
      ensures Valid() && targetList == old(targetList) - {name}
      ensures forall i :: View(i) == old(View(i)) && LifeOf(i) == old(LifeOf(i))
    {
      Lengths();
      hide Valid, StateAt;
      SetNames(targetList - {name});
    }

    lemma LiveViews()
      requires Valid()
      ensures |sessionList| == MAX_SESSIONS && forall i: nat :: i in Live() <==> View(i).Some?
    {}

    lemma Vacant(sid: nat)
      requires Valid() && sid < MAX_SESSIONS && |sessionList| == MAX_SESSIONS
      ensures View(sid) == None <==> sessionList[sid] == null
    {}

    /** CreateSession once a free slot is found: the slot and the name are taken, and given back if
      the connection cannot be opened. */
    method TryOpen(sid: nat, name: string, fails: nat -> bool, input: seq<bv8>, opening: Opening)
      returns (error: Errno, cid: nat)
      requires Valid() && sid < MAX_SESSIONS && sessionList[sid] == null
      modifies this`sessionList, this`targetList, this`Repr, Sessions()`connections
      ensures Valid() && targets == old(targets) && error == ErrorOf(opening)
      ensures View(sid) == if error == OK then Some(Slot([Some(false), None], 0, sid in targets)) else None
      ensures LifeOf(sid) == if error == OK then Life.Step(old(LifeOf(sid)), Life.Connect(0)) else old(LifeOf(sid))
      ensures forall i :: i != sid ==> View(i) == old(View(i)) && LifeOf(i) == old(LifeOf(i))
      ensures targetList == if error == OK then old(targetList)[name := sid] else old(targetList)[name := sid] - {name}
    {
      hide Valid, View, LifeOf, SlotStep, Life.Step;
      Vacancy(sid);
      var session := new Session(sid);
      PlaceSession(sid, session);
      BindName(name, sid);
      NewSlotSteps(sid in targets);
      error, cid := CreateConnection(sid, fails, input, opening);
      if error != OK {
        UnbindName(name);
        VacateSlot(sid);
      }
    }

    /** No session slot is free. */
    ghost predicate Full()
      requires Valid()
      reads this, Repr
    {
      forall i :: 0 <= i < 16 ==> View(i).Some?
    }

    /** Opens a session under a target name in the first free slot, with one connection; a failed
      connection undoes it.  The table of names stays a bijection if and only if there was no free
      slot, no memory for the session, or the name was not in use. */
    method CreateSession(name: string, fails: nat -> bool, input: seq<bv8>, hasMemory: bool, opening: Opening)
      returns (error: Errno, sid: nat, cid: nat)
      requires Valid()
      modifies this`sessionList, this`targetList, this`Repr, Sessions()`connections
      ensures Valid() && targets == old(targets)
      ensures error == if old(Full()) || !hasMemory then EAGAIN
                       else if opening == Opened then OK else if opening == SocketFails then OTHER else EAGAIN
      ensures error == OK ==> sid < MAX_SESSIONS && old(View(sid)) == None
      ensures error == OK ==> forall i :: 0 <= i < sid ==> old(View(i)).Some?
      ensures error == OK ==> View(sid) == Some(Slot([Some(false), None], 0, sid in targets))
      ensures error == OK ==> targetList == old(targetList)[name := sid]
      ensures error == OK ==> LifeOf(sid) == Life.Step(old(LifeOf(sid)), Life.Connect(0))
      ensures forall i :: error != OK || i != sid ==> View(i) == old(View(i)) && LifeOf(i) == old(LifeOf(i))
      ensures error != OK ==>
                targetList == if old(Full()) || !hasMemory then old(targetList) else old(targetList) - {name}
      ensures old(Bijective(targetList, Live())) ==>
                (Bijective(targetList, Live()) <==> old(Full()) || !hasMemory || name !in old(targetList))
      ensures old(AllConsistent()) ==> AllConsistent()
    {
      hide Valid, View, LifeOf, Bijective, Consistent, Life.Step;
      LiveViews();
      sid := FreeSlot();
      forall i | 0 <= i < MAX_SESSIONS
        ensures View(i) == None <==> sessionList[i] == null
      {
        Vacant(i);
      }
      if sid == MAX_SESSIONS || !hasMemory {
        return EAGAIN, sid, 0;
      }
      assert View(sid) == None;
      ghost var names, live := targetList, Live();
      error, cid := TryOpen(sid, name, fails, input, opening);
      LiveViews();
      NewSlotSteps(sid in targets);
      if error != OK {
        assert Live() == live;
        if Bijective(names, live) {
          NamesAfterFailedCreate(names, live, name, sid);
        }
        assert name !in names ==> targetList == names;
      } else {
        assert Live() == live + {sid};
        if Bijective(names, live) {
          NamesAfterCreate(names, live, name, sid);
        }
      }
    }

    /** Releases a session: its connections, its slot and its name. */
    method ReleaseSession(sid: nat)
      requires Valid()
      modifies this`sessionList, this`targetList, this`targets, this`tasks, this`reported, Sessions()`connections
      modifies Sessions()`numActiveConnections, Connections()`dataRecvEnabled, Connections()`bytesPerSecHistoryIdx, Queues()
      ensures Valid() && View(sid) == None
      ensures LifeOf(sid) == Life.Step(Life.Step(old(LifeOf(sid)), Life.Release(0)), Life.Release(1))
      ensures forall i :: i != sid ==> View(i) == old(View(i)) && LifeOf(i) == old(LifeOf(i))
      ensures old(Bijective(targetList, Live())) ==> Bijective(targetList, Live())
      ensures old(AllConsistent()) ==> AllConsistent()
    {
      hide Valid, View, LifeOf, Bijective, Consistent, ReleasedUpTo, Life.Step;
      LiveViews();
      NoLife(sid);
      if sid >= MAX_SESSIONS {
        BeyondSlots(sid);
        return;
      }
      Vacant(sid);
      if sessionList[sid] == null {
        return;
      }
      ghost var start := View(sid).value;
      ghost var names, live, before := targetList, Live(), targets;
      assert sid in live;
      TwoLines(sid);
      NoLinesLeft(LifeOf(sid));
      ReleaseAllConnections(sid);
      VacateSlot(sid);
      assert targetList == names;
      LiveViews();
      assert Live() == live - {sid};
      if name :| name in targetList && targetList[name] == sid {
        UnbindName(name);
        if Bijective(names, live) {
          NamesAfterRelease(names, live, name);
        }
      } else {
        assert forall n :: n in names ==> names[n] != sid;
        UnnamedSession(names, live, sid);
      }
      if Consistent(start) {
        ReleasedAllKeeps(start);
        assert sid !in targets;
        forall i | i in targets
          ensures i in before
        {
          assert i in targets - {sid};
          assert i in before - {sid};
        }
      }
    }

    /** Shutting down releases every session: no session, no name and no target is left. */
    method ReleaseAllSessions()
      requires Valid()
      modifies this`sessionList, this`targetList, this`targets, this`tasks, this`reported, Sessions()`connections
      modifies Sessions()`numActiveConnections, Connections()`dataRecvEnabled, Connections()`bytesPerSecHistoryIdx, Queues()
      ensures Valid() && forall i :: View(i) == None
      ensures old(Bijective(targetList, Live())) ==> targetList == map[]
      ensures old(AllConsistent()) ==> targets == {}
    {
      hide Valid, View, Bijective, Consistent;
      ghost var repr := Repr;
      for sid := 0 to MAX_SESSIONS
        invariant Valid() && Repr == repr
        invariant forall i :: 0 <= i < sid ==> View(i) == None
        invariant old(Bijective(targetList, Live())) ==> Bijective(targetList, Live())
        invariant old(AllConsistent()) ==> AllConsistent()
      {
        LiveViews();
        Vacant(sid);
        if sessionList[sid] != null {
          ReleaseSession(sid);
        }
      }
      forall i: nat | i >= MAX_SESSIONS
        ensures View(i) == None
      {
        BeyondSlots(i);
      }
      LiveViews();
      assert Live() == {};
      NoSessionsNoNames(targetList);
    }

    /** The driver stack gives up on an outstanding task: over a live connection the head of the queue
      is removed and the task reported as undelivered; a broken one is itself given up.  `position` says
      which submission it is. */
    method HandleTimeout(sid: nat, cid: nat, tag: Tag, connected: bool, client: bool, ghost position: nat)
      requires Valid() && sid < MAX_SESSIONS && tag in LifeOf(sid).tasks.tags
      modifies this`sessionList, this`targetList, this`targets, this`tasks, this`reported, Sessions()`connections
      modifies Sessions()`numActiveConnections, Connections()`dataRecvEnabled, Connections()`bytesPerSecHistoryIdx, Queues()
      ensures Valid()
      ensures LifeOf(sid) == if connected then Life.Step(old(LifeOf(sid)), Life.Timeout(cid, tag))
                             else if old(View(sid)).Some? && Has(old(View(sid)).value, cid)
                             then AfterConnectionTimeout(old(LifeOf(sid)), cid, client) else old(LifeOf(sid))
      ensures forall i :: i != sid || connected ==> View(i) == old(View(i))
      ensures forall i :: i != sid ==> LifeOf(i) == old(LifeOf(i))
    {
      hide Objects, OwnsConnections, Life.PopHead, Life.Report, AfterConnectionTimeout;
      if cid >= MAX_CONNECTIONS || sessionList[sid] == null {
        return;
      }
      var session := sessionList[sid];
      var connection := session.connections[cid];
      if connection == null {
        return;
      }
      if !connected {
        HandleConnectionTimeout(sid, cid, client);
        return;
      }
      Reachable(sid, session, cid, connection);
      PopAt(sid, session, cid, connection, TimeoutOf(position));
      ReportAt(sid, session, cid, connection, tag);
    }

    /** With two connections the broken one is deactivated, otherwise all are; without a daemon to
      notify, the connection or the session is released as well. */
    method HandleConnectionTimeout(sid: nat, cid: nat, client: bool)
      requires Valid() && sid < MAX_SESSIONS
      modifies this`sessionList, this`targetList, this`targets, this`tasks, this`reported, Sessions()`connections
      modifies Sessions()`numActiveConnections, Connections()`dataRecvEnabled, Connections()`bytesPerSecHistoryIdx, Queues()
      ensures Valid() && LifeOf(sid) == AfterConnectionTimeout(old(LifeOf(sid)), cid, client)
      ensures old(View(sid)) == None ==> View(sid) == None
      ensures old(View(sid)).Some? ==>
                var s := old(View(sid)).value;
                View(sid) ==
                if Has(s, 0) && Has(s, 1) then
                  (if !Has(s, cid) then Some(s)
                   else if client then Some(AfterDeactivate(s, cid))
                   else Some(AfterReleaseConnection(AfterDeactivate(s, cid), cid)))
                else if client then Some(AfterDeactivateAll(s)) else None
      ensures forall i :: i != sid ==> View(i) == old(View(i)) && LifeOf(i) == old(LifeOf(i))
      ensures client ==> sessionList == old(sessionList) && targetList == old(targetList)
    {
      hide Valid, View, LifeOf, Life.Step, AfterDeactivate, AfterDeactivateAll, AfterReleaseConnection;
      Vacancy(sid);
      NoSuchLines(LifeOf(sid), cid);
      if sessionList[sid] == null {
        return;
      }
      var connectionCount := CountConnections(sessionList[sid]);
      if connectionCount > 1 {
        GiveUpConnection(sid, cid, client);
      } else {
        GiveUpSession(sid, client);
      }
    }

    method GiveUpConnection(sid: nat, cid: nat, client: bool)
      requires Valid() && View(sid).Some?
      modifies this`targets, this`tasks, this`reported, Sessions()`connections
      modifies Sessions()`numActiveConnections, Connections()`dataRecvEnabled, Connections()`bytesPerSecHistoryIdx, Queues()
      ensures Valid() && sessionList == old(sessionList)
      ensures LifeOf(sid) ==
              var d := Life.Step(old(LifeOf(sid)), Life.Deactivate(cid));
              if client then d else Life.Step(d, Life.Release(cid))
      ensures var s := old(View(sid)).value;
              View(sid) == Some(if !Has(s, cid) then s
                                else if client then AfterDeactivate(s, cid)
                                else AfterReleaseConnection(AfterDeactivate(s, cid), cid))
      ensures forall i :: i != sid ==> View(i) == old(View(i)) && LifeOf(i) == old(LifeOf(i))
    {
      hide Valid, View, LifeOf, Life.Step, AfterReleaseConnection;
      var _ := DeactivateConnection(sid, cid);
      if !client {
        ReleaseConnection(sid, cid);
      }
    }

    method GiveUpSession(sid: nat, client: bool)
      requires Valid() && View(sid).Some?
      modifies this`sessionList, this`targetList, this`targets, this`tasks, this`reported, Sessions()`connections
      modifies Sessions()`numActiveConnections, Connections()`dataRecvEnabled, Connections()`bytesPerSecHistoryIdx, Queues()
      ensures Valid()
      ensures LifeOf(sid) ==
              var d := Life.Step(Life.Step(old(LifeOf(sid)), Life.Deactivate(0)), Life.Deactivate(1));
              if client then d else Life.Step(Life.Step(d, Life.Release(0)), Life.Release(1))
      ensures View(sid) == if client then Some(AfterDeactivateAll(old(View(sid)).value)) else None
      ensures forall i :: i != sid ==> View(i) == old(View(i)) && LifeOf(i) == old(LifeOf(i))
      ensures client ==> sessionList == old(sessionList) && targetList == old(targetList)
    {
      hide Valid, View, LifeOf, Life.Step, AfterDeactivateAll;
      var _ := DeactivateAllConnections(sid);
      if !client {
        ReleaseSession(sid);
      }
    }

    lemma Vacancy(sid: nat)
      requires Valid() && sid < MAX_SESSIONS
      ensures |sessionList| == MAX_SESSIONS && (View(sid) == None <==> sessionList[sid] == null)
      ensures View(sid) == None ==> LifeOf(sid).lines == [None, None]
      ensures sessionList[sid] != null ==>
                && |sessionList[sid].connections| == MAX_CONNECTIONS
                && forall k :: 0 <= k < MAX_CONNECTIONS ==>
                     (sessionList[sid].connections[k] != null <==> Has(View(sid).value, k))
                     && (sessionList[sid].connections[k] != null <==> Life.Has(LifeOf(sid), k))
    {}

    method CountConnections(session: Session) returns (count: nat)
      requires |session.connections| == MAX_CONNECTIONS
      ensures count > 1 <==> session.connections[0] != null && session.connections[1] != null
    {
      count := 0;
      for cid := 0 to MAX_CONNECTIONS
        invariant count == (if cid > 0 && session.connections[0] != null then 1 else 0)
                           + if cid > 1 && session.connections[1] != null then 1 else 0
      {
        if session.connections[cid] != null {
          count := count + 1;
        }
      }
    }

    lemma NoSuchLines(l: Life.Life, cid: nat)
      ensures l.lines == [None, None] ==>
                AfterConnectionTimeout(l, cid, true) == AfterConnectionTimeout(l, cid, false) == l
    {}

    lemma NoLife(sid: nat)
      requires Valid()
      ensures View(sid) == None ==>
                Life.Step(Life.Step(LifeOf(sid), Life.Release(0)), Life.Release(1)) == LifeOf(sid)
    {}

    lemma NoLinesLeft(l: Life.Life)
      requires |l.lines| == MAX_CONNECTIONS
      ensures Life.Step(Life.Step(l, Life.Release(0)), Life.Release(1)).lines == [None, None]
    {
      hide Drain;
    }

    lemma TwoLines(sid: nat)
      requires Valid()
      ensures |LifeOf(sid).lines| == MAX_CONNECTIONS
    {}

    lemma BeyondSlots(sid: nat)
      requires Valid() && sid >= MAX_SESSIONS
      ensures View(sid) == None
    {}

    lemma InSlot(sid: nat)
      requires Valid() && View(sid).Some?
      ensures sid < MAX_SESSIONS && WellShaped(View(sid).value) && (sid in targets <==> View(sid).value.target)
    {}

    method ReleaseAllConnections(sid: nat)
      requires Valid() && View(sid).Some?
      modifies this`targets, this`tasks, this`reported, Sessions()`connections
      modifies Sessions()`numActiveConnections, Connections()`dataRecvEnabled, Connections()`bytesPerSecHistoryIdx, Queues()
      ensures Valid() && sessionList == old(sessionList) && targetList == old(targetList)
      ensures View(sid) == Some(ReleasedUpTo(old(View(sid)).value, MAX_CONNECTIONS))
      ensures LifeOf(sid) == Life.Step(Life.Step(old(LifeOf(sid)), Life.Release(0)), Life.Release(1))
      ensures forall i :: i != sid ==> View(i) == old(View(i)) && LifeOf(i) == old(LifeOf(i))
      ensures targets - {sid} == old(targets) - {sid}
      ensures sid in targets <==> View(sid).value.target
    {
      hide Valid, View, LifeOf, AfterReleaseConnection, Life.Step;
      InSlot(sid);
      ghost var start, life := View(sid).value, LifeOf(sid);
      for cid := 0 to MAX_CONNECTIONS
        invariant Valid() && sessionList == old(sessionList) && targetList == old(targetList)
        invariant View(sid) == Some(ReleasedUpTo(start, cid))
        invariant LifeOf(sid) == (if cid == 0 then life else if cid == 1 then Life.Step(life, Life.Release(0))
                                  else Life.Step(Life.Step(life, Life.Release(0)), Life.Release(1)))
        invariant forall i :: i != sid ==> View(i) == old(View(i)) && LifeOf(i) == old(LifeOf(i))
        invariant targets - {sid} == old(targets) - {sid}
      {
        Vacancy(sid);
        NoSuchLine(LifeOf(sid), cid);
        if sessionList[sid].connections[cid] != null {
          ReleaseConnection(sid, cid);
        }
      }
      InSlot(sid);
    }
  }
}
