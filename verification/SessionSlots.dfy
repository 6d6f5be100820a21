/** The bookkeeping of sessions: the table of target names, and for each session slot the count of
  active connections and the existence of its target. */
module SessionSlots {
  import opened Words

  const MAX_SESSIONS := 16
  const MAX_CONNECTIONS := 2

  // ----- The table of target names

  /** Every name leads to a live session, every live session has a name, and only one. */
  ghost predicate Bijective(names: map<string, nat>, live: set<nat>) {
    && (forall n :: n in names ==> names[n] in live)
    && (forall n, m :: n in names && m in names && names[n] == names[m] ==> n == m)
    && (forall i :: i in live ==> exists n :: n in names && names[n] == i)
  }

  /** Opening a session keeps the name table a bijection if and only if the name is not in use. */
  lemma NamesAfterCreate(names: map<string, nat>, live: set<nat>, name: string, slot: nat)
    requires Bijective(names, live) && slot !in live
    ensures Bijective(names[name := slot], live + {slot}) <==> name !in names
  {
    var after := names[name := slot];
    if name in names {
      forall n | n in after
        ensures after[n] != names[name]
      {
        if n != name {
          assert names[n] != names[name];
        }
      }
      assert names[name] in live + {slot};
    } else {
      forall i | i in live + {slot}
        ensures exists n :: n in after && after[n] == i
      {
        if i == slot {
          assert after[name] == slot;
        } else {
          var n :| n in names && names[n] == i;
          assert after[n] == i;
        }
      }
    }
  }

  /** Undoing it again restores the table if the name was not in use; otherwise it loses a name. */
  lemma NamesAfterFailedCreate(names: map<string, nat>, live: set<nat>, name: string, slot: nat)
    requires Bijective(names, live) && slot !in live
    ensures name !in names ==> names[name := slot] - {name} == names
    ensures Bijective(names[name := slot] - {name}, live) <==> name !in names
  {
    var after := names[name := slot] - {name};
    if name in names {
      forall n | n in after
        ensures after[n] != names[name]
      {
        assert n in names && n != name;
      }
      assert names[name] in live;
    } else {
      assert after == names;
    }
  }

  lemma NamesAfterRelease(names: map<string, nat>, live: set<nat>, name: string)
    requires Bijective(names, live) && name in names
    ensures Bijective(names - {name}, live - {names[name]})
  {
    var after := names - {name};
    forall i | i in live - {names[name]}
      ensures exists n :: n in after && after[n] == i
    {
      var n :| n in names && names[n] == i;
      assert n in after;
    }
  }

  lemma UnnamedSession(names: map<string, nat>, live: set<nat>, slot: nat)
    requires slot in live && forall n :: n in names ==> names[n] != slot
    ensures !Bijective(names, live)
  {}

  lemma NoSessionsNoNames(names: map<string, nat>)
    ensures Bijective(names, {}) ==> names == map[]
  {
    if Bijective(names, {}) {
      assert forall n :: n !in names;
    }
  }

  // ----- What a session slot amounts to

  /** Of a live session: which connections exist and which of them are enabled, the count of active
    connections, and whether the driver stack knows its target. */
  datatype Slot = Slot(connections: seq<Option<bool>>, active: u32, target: bool)

  function Bit(b: bool): nat { if b then 1 else 0 }

  predicate WellShaped(s: Slot) { |s.connections| == MAX_CONNECTIONS }

  predicate Has(s: Slot, cid: nat) { cid < |s.connections| && s.connections[cid].Some? }

  predicate On(s: Slot, cid: nat) { Has(s, cid) && s.connections[cid].value }

  /** The count is the number of enabled connections, and the target exists exactly while there
    are any. */
  predicate Consistent(s: Slot) {
    && WellShaped(s)
    && s.active == Bit(On(s, 0)) + Bit(On(s, 1))
    && (s.target <==> s.active > 0)
  }

  function AfterActivate(s: Slot, cid: nat, targetCreated: bool): Slot
    requires Has(s, cid)
  {
    if s.active == 0 && !targetCreated then s.(connections := s.connections[cid := Some(false)])
    else s.(connections := s.connections[cid := Some(true)], active := Inc32(s.active),
            target := s.target || s.active == 0)
  }

  function AfterDeactivate(s: Slot, cid: nat): Slot
    requires Has(s, cid)
  {
    s.(connections := s.connections[cid := Some(false)], active := Dec32(s.active),
       target := s.target && Dec32(s.active) != 0)
  }

  function AfterReleaseConnection(s: Slot, cid: nat): Slot
    requires Has(s, cid)
  {
    var t := if On(s, cid) then AfterDeactivate(s, cid) else s;
    t.(connections := t.connections[cid := None])
  }

  function AfterDeactivateAll(s: Slot): Slot
    requires WellShaped(s)
  {
    var t := if Has(s, 0) then AfterDeactivate(s, 0) else s;
    if Has(t, 1) then AfterDeactivate(t, 1) else t
  }

  /** The slot with its first `n` connections released. */
  function ReleasedUpTo(s: Slot, n: nat): Slot
    requires WellShaped(s) && n <= MAX_CONNECTIONS
    ensures WellShaped(ReleasedUpTo(s, n))
  {
    if n == 0 then s
    else
      var t := ReleasedUpTo(s, n - 1);
      if Has(t, n - 1) then AfterReleaseConnection(t, n - 1) else t
  }

  /** Releasing all connections of a consistent slot leaves no target behind. */
  lemma ReleasedAllKeeps(s: Slot)
    requires Consistent(s)
    ensures Consistent(ReleasedUpTo(s, MAX_CONNECTIONS)) && !ReleasedUpTo(s, MAX_CONNECTIONS).target
  {
    assert ReleasedUpTo(s, 0) == s;
    var t := ReleasedUpTo(s, 1);
    assert t == if Has(s, 0) then AfterReleaseConnection(s, 0) else s;
    if Has(s, 0) {
      ReleaseConnectionKeeps(s, 0);
    }
    if Has(t, 1) {
      ReleaseConnectionKeeps(t, 1);
    }
  }

  /** The first connection of a new session. */
  lemma NewSlotSteps(target: bool)
    ensures SlotStep(Slot([None, None], 0, target), Connect(0)) == Slot([Some(false), None], 0, target)
    ensures Consistent(Slot([Some(false), None], 0, target)) <==> !target
  {}

  /** Activating keeps a slot consistent if and only if the connection was not already enabled. */
  lemma ActivateKeeps(s: Slot, cid: nat, targetCreated: bool)
    requires Consistent(s) && Has(s, cid)
    ensures Consistent(AfterActivate(s, cid, targetCreated)) <==> !On(s, cid)
  {}

  /** Deactivating keeps a slot consistent if and only if the connection was enabled. */
  lemma DeactivateKeeps(s: Slot, cid: nat)
    requires Consistent(s) && Has(s, cid)
    ensures Consistent(AfterDeactivate(s, cid)) <==> On(s, cid)
  {}

  /** Releasing a connection keeps every consistent slot consistent. */
  lemma ReleaseConnectionKeeps(s: Slot, cid: nat)
    requires Consistent(s) && Has(s, cid)
    ensures Consistent(AfterReleaseConnection(s, cid)) && !Has(AfterReleaseConnection(s, cid), cid)
  {}

  /** Deactivating all connections keeps a slot consistent if and only if every existing connection
    was enabled: the ones that were not are counted down all the same. */
  lemma DeactivateAllKeeps(s: Slot)
    requires Consistent(s)
    ensures Consistent(AfterDeactivateAll(s)) <==>
            forall cid :: 0 <= cid < MAX_CONNECTIONS && Has(s, cid) ==> On(s, cid)
  {}

  datatype SlotEvent =
    | Connect(cid: nat) | Activate(cid: nat, targetCreated: bool) | Deactivate(cid: nat) | Release(cid: nat)

  function SlotStep(s: Slot, e: SlotEvent): Slot {
    match e
    case Connect(cid) =>
      if cid < |s.connections| && s.connections[cid].None?
      then s.(connections := s.connections[cid := Some(false)]) else s
    case Activate(cid, created) => if Has(s, cid) then AfterActivate(s, cid, created) else s
    case Deactivate(cid) => if Has(s, cid) then AfterDeactivate(s, cid) else s
    case Release(cid) => if Has(s, cid) then AfterReleaseConnection(s, cid) else s
  }

  function SlotRun(s: Slot, es: seq<SlotEvent>): Slot
    decreases |es|
  {
    if es == [] then s else SlotRun(SlotStep(s, es[0]), es[1..])
  }

  /** Activations and deactivations of each connection alternate along the run. */
  predicate Alternates(s: Slot, es: seq<SlotEvent>)
    decreases |es|
  {
    es == [] ||
    ((match es[0]
      case Activate(cid, _) => !On(s, cid)
      case Deactivate(cid) => Has(s, cid) ==> On(s, cid)
      case _ => true)
     && Alternates(SlotStep(s, es[0]), es[1..]))
  }

  ghost predicate AlwaysConsistent(s: Slot, es: seq<SlotEvent>)
    decreases |es|
  {
    Consistent(s) && (es == [] || AlwaysConsistent(SlotStep(s, es[0]), es[1..]))
  }

  lemma StepKeepsIff(s: Slot, e: SlotEvent)
    requires Consistent(s)
    ensures Consistent(SlotStep(s, e)) <==> Alternates(s, [e])
  {
    assert Alternates(SlotStep(s, e), []);
    match e {
      case Connect(cid) =>
      case Activate(cid, created) => if Has(s, cid) { ActivateKeeps(s, cid, created); }
      case Deactivate(cid) => if Has(s, cid) { DeactivateKeeps(s, cid); }
      case Release(cid) => if Has(s, cid) { ReleaseConnectionKeeps(s, cid); }
    }
  }

  /** All through a run, with connections opened and released at any time, the count is the number
    of enabled connections and the target exists exactly while it is positive, if and only if each
    connection is activated and deactivated alternately. */
  lemma {:induction false} ConsistentIffAlternating(s: Slot, es: seq<SlotEvent>)
    requires Consistent(s)
    ensures AlwaysConsistent(s, es) <==> Alternates(s, es)
    ensures Alternates(s, es) ==> Consistent(SlotRun(s, es))
    decreases |es|
  {
    hide Consistent, SlotStep;
    if es != [] {
      StepKeepsIff(s, es[0]);
      assert Alternates(SlotStep(s, es[0]), []);
      assert [es[0]][1..] == [];
      if Consistent(SlotStep(s, es[0])) {
        ConsistentIffAlternating(SlotStep(s, es[0]), es[1..]);
      }
    }
  }

  /** Activating twice is enough to break it. */
  lemma DoubleActivationCounted()
    ensures var s := Slot([Some(false), None], 0, false);
            Consistent(s) && !Consistent(SlotRun(s, [Activate(0, true), Activate(0, true)]))
  {
    var s := Slot([Some(false), None], 0, false);
    var t := SlotStep(s, Activate(0, true));
    var es := [Activate(0, true), Activate(0, true)];
    assert SlotRun(s, es) == SlotRun(t, es[1..]) == SlotRun(SlotStep(t, Activate(0, true)), []);
  }
}
