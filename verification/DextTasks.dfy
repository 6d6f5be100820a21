/** The driver extension's table of pending tasks: 256 slots scanned from the front, a wrapping tag
  counter, and a ledger of what became of every task accepted. */
module DextTasks {
  import opened Words
  import opened SlotScan

  const SLOTS := 256
  const TAG_BASE: u32 := 0x8000_0000
  const TAG_COUNT := 0x7fff_ffff

  /** `serial` is the model's own numbering of accepted tasks; `action` is the completion action the
    task came with, if any. */
  datatype Task = Task(target: nat, lun: nat, tag: u32, controllerId: nat, action: Option<nat>, serial: nat)

  type Slots = s: seq<Option<Task>> | |s| == SLOTS witness seq(SLOTS, _ => None)

  /** The table, the next tag, and the serials of the tasks whose action was retained, that were
    completed, whose action was released, and that have left the table. */
  datatype Table = Table(slots: Slots, nextTag: u32, accepted: nat,
                         retained: seq<nat>, completed: seq<nat>, released: seq<nat>, retired: seq<nat>)

  const NO_TASKS: Slots := seq(SLOTS, _ => None)

  const INITIAL: Table := Table(NO_TASKS, TAG_BASE, 0, [], [], [], [])

  // ----- Scans

  predicate HasTag(s: Option<Task>, tag: u32) { s.Some? && s.value.tag == tag }

  function FirstTag(slots: Slots, tag: u32, i: nat): (k: nat)
    requires i <= SLOTS
    ensures i <= k <= SLOTS && (k < SLOTS ==> HasTag(slots[k], tag))
    ensures forall j :: i <= j < k ==> !HasTag(slots[j], tag)
    decreases SLOTS - i
  {
    if i == SLOTS || HasTag(slots[i], tag) then i else FirstTag(slots, tag, i + 1)
  }

  // ----- Operations

  function NextTag(tag: u32): u32 {
    var t := Inc32(tag);
    if t == 0 || t == 0xffff_ffff then TAG_BASE else t
  }

  /** Accepts a task into the first free slot; a full table changes nothing. */
  function Add(d: Table, target: nat, lun: nat, controllerId: nat, action: Option<nat>): Table {
    var i := FirstFree(d.slots, 0);
    if i == SLOTS then d
    else d.(slots := d.slots[i := Some(Task(target, lun, d.nextTag, controllerId, action, d.accepted))],
            nextTag := NextTag(d.nextTag), accepted := d.accepted + 1,
            retained := if action.Some? then d.retained + [d.accepted] else d.retained)
  }

  /** Empties a slot, releasing the action of its task. */
  function Retire(d: Table, i: nat): Table
    requires i < SLOTS && d.slots[i].Some?
  {
    var t := d.slots[i].value;
    d.(slots := d.slots[i := None], retired := d.retired + [t.serial],
       released := if t.action.Some? then d.released + [t.serial] else d.released)
  }

  function Complete(d: Table, i: nat): Table
    requires i < SLOTS && d.slots[i].Some?
  {
    d.(completed := d.completed + [d.slots[i].value.serial])
  }

  /** Completes the task in a slot and empties the slot. */
  function Settle(d: Table, i: nat): Table
    requires i < SLOTS && d.slots[i].Some?
  {
    Retire(Complete(d, i), i)
  }

  function Remove(d: Table, tag: u32): Table {
    var i := FirstTag(d.slots, tag, 0);
    if i == SLOTS then d else Retire(d, i)
  }

  /** A SCSI response: completes the first task with the tag and removes it. */
  function Respond(d: Table, tag: u32): Table {
    var i := FirstTag(d.slots, tag, 0);
    if i == SLOTS || d.slots[i].value.action.None? then d else Remove(Complete(d, i), tag)
  }

  predicate Matches(s: Option<Task>, target: nat, lun: Option<nat>) {
    s.Some? && s.value.target == target && s.value.action.Some? && (lun.Some? ==> s.value.lun == lun.value)
  }

  /** Completes and retires every matching task from slot `i` on. */
  function AbortFrom(d: Table, target: nat, lun: Option<nat>, i: nat): Table
    requires i <= SLOTS
    decreases SLOTS - i
  {
    if i == SLOTS then d
    else AbortFrom(if Matches(d.slots[i], target, lun) then Settle(d, i) else d, target, lun, i + 1)
  }

  predicate IsController(s: Option<Task>, target: nat, controllerId: nat) {
    s.Some? && s.value.target == target && s.value.controllerId == controllerId && s.value.action.Some?
  }

  function FirstController(slots: Slots, target: nat, controllerId: nat, i: nat): (k: nat)
    requires i <= SLOTS
    ensures i <= k <= SLOTS && (k < SLOTS ==> IsController(slots[k], target, controllerId))
    ensures forall j :: i <= j < k ==> !IsController(slots[j], target, controllerId)
    decreases SLOTS - i
  {
    if i == SLOTS || IsController(slots[i], target, controllerId) then i
    else FirstController(slots, target, controllerId, i + 1)
  }

  function Abort(d: Table, target: nat, controllerId: nat): Table {
    var i := FirstController(d.slots, target, controllerId, 0);
    if i == SLOTS then d else Settle(d, i)
  }

  /** Removes, by tag, every task of the target from slot `i` on. */
  function UnregisterFrom(d: Table, target: nat, i: nat): Table
    requires i <= SLOTS
    decreases SLOTS - i
  {
    if i == SLOTS then d
    else UnregisterFrom(if d.slots[i].Some? && d.slots[i].value.target == target
                        then Remove(d, d.slots[i].value.tag) else d, target, i + 1)
  }

  /** Drops every task from slot `i` on; the tag counter goes on. */
  function CloseFrom(d: Table, i: nat): Table
    requires i <= SLOTS
    decreases SLOTS - i
  {
    if i == SLOTS then d else CloseFrom(if d.slots[i].Some? then Retire(d, i) else d, i + 1)
  }

  datatype Event =
    | Accept(target: nat, lun: nat, controllerId: nat, action: Option<nat>)
    | Response(tag: u32)
    | AbortTask(target: nat, controllerId: nat)
    | AbortMatching(target: nat, scope: Option<nat>)
    | Unregister(target: nat)
    | Close

  function Step(d: Table, e: Event): Table {
    match e
    case Accept(target, lun, controllerId, action) => Add(d, target, lun, controllerId, action)
    case Response(tag) => Respond(d, tag)
    case AbortTask(target, controllerId) => Abort(d, target, controllerId)
    case AbortMatching(target, lun) => AbortFrom(d, target, lun, 0)
    case Unregister(target) => UnregisterFrom(d, target, 0)
    case Close => CloseFrom(d, 0)
  }

  function Run(d: Table, es: seq<Event>): Table
    decreases |es|
  {
    if es == [] then d else Run(Step(d, es[0]), es[1..])
  }

  // ----- The ledger

  /** No two slots hold the same task; a task in a slot has not retired, and its action was retained
    if it has one. */
  ghost predicate SlotsAccounted(d: Table) {
    && (forall i, j :: 0 <= i < j < SLOTS && d.slots[i].Some? && d.slots[j].Some? ==>
          d.slots[i].value.serial != d.slots[j].value.serial)
    && (forall i :: 0 <= i < SLOTS && d.slots[i].Some? ==>
          var t := d.slots[i].value;
          && t.serial < d.accepted && t.serial !in d.retired
          && (t.action.Some? <==> t.serial in d.retained))
  }

  /** An action is released when its task retires, and only such tasks were completed; nothing
    happens twice to a task. */
  ghost predicate ListsAccounted(d: Table) {
    && NoRepeats(d.retained) && NoRepeats(d.completed) && NoRepeats(d.released) && NoRepeats(d.retired)
    && (forall n :: n in d.retained ==> n < d.accepted)
    && (forall n :: n in d.retired ==> n < d.accepted)
    && (forall n :: n in d.released <==> n in d.retained && n in d.retired)
    && (forall n :: n in d.completed ==> n in d.released)
  }

  ghost predicate Ledger(d: Table) {
    SlotsAccounted(d) && ListsAccounted(d) && ActiveCount(d.slots) + |d.retired| == d.accepted
  }

  lemma AppendFresh(s: seq<nat>, n: nat)
    requires NoRepeats(s) && n !in s
    ensures NoRepeats(s + [n]) && forall m :: m in s + [n] <==> m in s || m == n
  {}

  lemma InitialLedger()
    ensures Ledger(INITIAL)
  {
    CountDecidesScans(NO_TASKS);
  }

  lemma AddKeepsLedger(d: Table, target: nat, lun: nat, controllerId: nat, action: Option<nat>)
    requires Ledger(d)
    ensures Ledger(Add(d, target, lun, controllerId, action))
  {
    hide NextTag;
    var i := FirstFree(d.slots, 0);
    if i < SLOTS {
      var t := Task(target, lun, d.nextTag, controllerId, action, d.accepted);
      ActiveCountUpdate(d.slots, i, Some(t));
      AppendFresh(d.retained, d.accepted);
    }
  }

  lemma RetireKeepsLedger(d: Table, i: nat)
    requires Ledger(d) && i < SLOTS && d.slots[i].Some?
    ensures Ledger(Retire(d, i))
  {
    var t := d.slots[i].value;
    ActiveCountUpdate(d.slots, i, None);
    AppendFresh(d.retired, t.serial);
    if t.action.Some? {
      AppendFresh(d.released, t.serial);
    }
  }

  lemma SettleKeepsLedger(d: Table, i: nat)
    requires Ledger(d) && i < SLOTS && d.slots[i].Some? && d.slots[i].value.action.Some?
    ensures Ledger(Settle(d, i))
  {
    var t := d.slots[i].value;
    RetireKeepsLedger(d, i);
    assert t.serial !in d.completed;
    AppendFresh(d.completed, t.serial);
    assert Settle(d, i) == Retire(d, i).(completed := d.completed + [t.serial]);
  }

  lemma RespondRetiresFirst(d: Table, tag: u32)
    ensures var i := FirstTag(d.slots, tag, 0);
            Respond(d, tag) == if i == SLOTS || d.slots[i].value.action.None? then d else Settle(d, i)
  {}

  lemma {:induction false} AbortKeepsLedger(d: Table, target: nat, lun: Option<nat>, i: nat)
    requires Ledger(d) && i <= SLOTS
    ensures Ledger(AbortFrom(d, target, lun, i))
    decreases SLOTS - i
  {
    hide Ledger, Settle;
    if i < SLOTS {
      if Matches(d.slots[i], target, lun) {
        SettleKeepsLedger(d, i);
        AbortKeepsLedger(Settle(d, i), target, lun, i + 1);
      } else {
        AbortKeepsLedger(d, target, lun, i + 1);
      }
    }
  }

  lemma {:induction false} UnregisterKeepsLedger(d: Table, target: nat, i: nat)
    requires Ledger(d) && i <= SLOTS
    ensures Ledger(UnregisterFrom(d, target, i))
    decreases SLOTS - i
  {
    hide Ledger, Retire;
    if i < SLOTS {
      if d.slots[i].Some? && d.slots[i].value.target == target {
        RetireKeepsLedger(d, FirstTag(d.slots, d.slots[i].value.tag, 0));
        UnregisterKeepsLedger(Remove(d, d.slots[i].value.tag), target, i + 1);
      } else {
        UnregisterKeepsLedger(d, target, i + 1);
      }
    }
  }

  lemma {:induction false} CloseKeepsLedger(d: Table, i: nat)
    requires Ledger(d) && i <= SLOTS
    ensures Ledger(CloseFrom(d, i))
    decreases SLOTS - i
  {
    hide Ledger, Retire;
    if i < SLOTS {
      if d.slots[i].Some? {
        RetireKeepsLedger(d, i);
        CloseKeepsLedger(Retire(d, i), i + 1);
      } else {
        CloseKeepsLedger(d, i + 1);
      }
    }
  }

  lemma StepKeepsLedger(d: Table, e: Event)
    requires Ledger(d)
    ensures Ledger(Step(d, e))
  {
    hide Ledger, Settle, Add, Respond;
    match e {
      case Accept(target, lun, controllerId, action) => AddKeepsLedger(d, target, lun, controllerId, action);
      case Response(tag) =>
        RespondRetiresFirst(d, tag);
        var i := FirstTag(d.slots, tag, 0);
        if i < SLOTS && d.slots[i].value.action.Some? {
          SettleKeepsLedger(d, i);
        }
      case AbortTask(target, controllerId) =>
        var i := FirstController(d.slots, target, controllerId, 0);
        if i < SLOTS {
          SettleKeepsLedger(d, i);
        }
      case AbortMatching(target, lun) => AbortKeepsLedger(d, target, lun, 0);
      case Unregister(target) => UnregisterKeepsLedger(d, target, 0);
      case Close => CloseKeepsLedger(d, 0);
    }
  }

  lemma {:induction false} RunKeepsLedger(d: Table, es: seq<Event>)
    requires Ledger(d)
    ensures Ledger(Run(d, es))
    decreases |es|
  {
    hide Ledger, Step;
    if es != [] {
      StepKeepsLedger(d, es[0]);
      RunKeepsLedger(Step(d, es[0]), es[1..]);
    }
  }

  /** Over every run: a task is completed at most once, its action is retained at most once and
    released exactly when a task with a retained action has left the table, once; and the active
    slots are the accepted tasks that have not retired. */
  lemma EveryTaskSettledOnce(es: seq<Event>, n: nat)
    ensures var d := Run(INITIAL, es);
            && Occurrences(d.completed, n) <= Occurrences(d.released, n) <= Occurrences(d.retained, n) <= 1
            && (Occurrences(d.released, n) == 1 <==> Occurrences(d.retained, n) == 1 && Occurrences(d.retired, n) == 1)
            && Occurrences(d.retired, n) <= 1
            && ActiveCount(d.slots) == d.accepted - |d.retired|
  {
    hide Run, Occurrences, ActiveCount;
    InitialLedger();
    RunKeepsLedger(INITIAL, es);
    var d := Run(INITIAL, es);
    OccursOnce(d.completed, n);
    OccursOnce(d.released, n);
    OccursOnce(d.retained, n);
    OccursOnce(d.retired, n);
  }

  ghost predicate Appends(before: Table, after: Table, completes: bool) {
    && before.retired <= after.retired && before.completed <= after.completed
    && after.completed[|before.completed|..] == if completes then after.retired[|before.retired|..] else []
  }

  lemma AppendsChain(a: Table, b: Table, c: Table, completes: bool)
    requires Appends(a, b, completes) && Appends(b, c, completes)
    ensures Appends(a, c, completes)
  {
    assert c.retired[|a.retired|..] == b.retired[|a.retired|..] + c.retired[|b.retired|..];
    assert c.completed[|a.completed|..] == b.completed[|a.completed|..] + c.completed[|b.completed|..];
  }

  lemma {:induction false} AbortCompletes(d: Table, target: nat, lun: Option<nat>, i: nat)
    requires i <= SLOTS
    ensures Appends(d, AbortFrom(d, target, lun, i), true)
    decreases SLOTS - i
  {
    if i < SLOTS {
      var next := if Matches(d.slots[i], target, lun) then Settle(d, i) else d;
      AbortCompletes(next, target, lun, i + 1);
      AppendsChain(d, next, AbortFrom(next, target, lun, i + 1), true);
    }
  }

  lemma {:induction false} UnregisterDrops(d: Table, target: nat, i: nat)
    requires i <= SLOTS
    ensures Appends(d, UnregisterFrom(d, target, i), false)
    decreases SLOTS - i
  {
    if i < SLOTS {
      var next := if d.slots[i].Some? && d.slots[i].value.target == target
                  then Remove(d, d.slots[i].value.tag) else d;
      UnregisterDrops(next, target, i + 1);
      AppendsChain(d, next, UnregisterFrom(next, target, i + 1), false);
    }
  }

  lemma {:induction false} CloseDrops(d: Table, i: nat)
    requires i <= SLOTS
    ensures Appends(d, CloseFrom(d, i), false)
    decreases SLOTS - i
  {
    if i < SLOTS {
      var next := if d.slots[i].Some? then Retire(d, i) else d;
      CloseDrops(next, i + 1);
      AppendsChain(d, next, CloseFrom(next, i + 1), false);
    }
  }

  /** A response, an abort or a reset completes exactly the tasks it takes out of the table, in
    that order; unregistering a session or closing takes tasks out and completes none of them. */
  lemma CompletedOrDropped(d: Table, e: Event)
    ensures Appends(d, Step(d, e), !e.Unregister? && !e.Close?)
  {
    match e {
      case Accept(target, lun, controllerId, action) =>
      case Response(tag) =>
        RespondRetiresFirst(d, tag);
      case AbortTask(target, controllerId) =>
      case AbortMatching(target, lun) => AbortCompletes(d, target, lun, 0);
      case Unregister(target) => UnregisterDrops(d, target, 0);
      case Close => CloseDrops(d, 0);
    }
  }

  /** Closing empties the table and completes nobody. */
  lemma {:induction false} CloseEmpties(d: Table, i: nat)
    requires i <= SLOTS && forall j :: 0 <= j < i ==> d.slots[j].None?
    ensures CloseFrom(d, i).slots == NO_TASKS && CloseFrom(d, i).completed == d.completed
    ensures CloseFrom(d, i).nextTag == d.nextTag
    decreases SLOTS - i
  {
    if i < SLOTS {
      CloseEmpties(if d.slots[i].Some? then Retire(d, i) else d, i + 1);
    }
  }
}
