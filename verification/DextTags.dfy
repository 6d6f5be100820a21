/** Tags of the driver extension's tasks: they stay distinct while no task outlives the tag cycle, and
  the slot table then behaves as a map from tag to task. */
module DextTags {
  import opened Words
  import opened SlotScan
  import opened DextTasks

  // ----- Tags

  function TagOf(serial: nat): u32 { TAG_BASE + serial % TAG_COUNT }

  /** Tags are handed out in a cycle that skips the reserved values. */
  ghost predicate TagsInStep(d: Table) {
    && d.nextTag == TagOf(d.accepted)
    && forall i :: 0 <= i < SLOTS && d.slots[i].Some? ==> d.slots[i].value.tag == TagOf(d.slots[i].value.serial)
  }

  lemma NextTagCycles(n: nat)
    ensures NextTag(TagOf(n)) == TagOf(n + 1) && 0x8000_0000 <= TagOf(n) <= 0xffff_fffe
  {
    var q, r := n / TAG_COUNT, n % TAG_COUNT;
    assert n == q * TAG_COUNT + r;
    if r + 1 == TAG_COUNT {
      RemainderIs(n + 1, q + 1, 0);
    } else {
      RemainderIs(n + 1, q, r + 1);
    }
  }

  lemma RemainderIs(n: nat, q: nat, r: nat)
    requires r < TAG_COUNT && n == q * TAG_COUNT + r
    ensures n % TAG_COUNT == r
  {}

  ghost predicate Distinct(slots: Slots) {
    forall i, j :: 0 <= i < j < SLOTS && slots[i].Some? && slots[j].Some? ==> slots[i].value.tag != slots[j].value.tag
  }

  ghost predicate InUse(slots: Slots, tag: u32) {
    exists i :: 0 <= i < SLOTS && HasTag(slots[i], tag)
  }

  /** Accepting a task keeps the tags of active tasks distinct if and only if the table is full or
    the tag about to be handed out is not in use. */
  lemma AddKeepsDistinct(d: Table, target: nat, lun: nat, controllerId: nat, action: Option<nat>)
    requires Distinct(d.slots)
    ensures Distinct(Add(d, target, lun, controllerId, action).slots) <==>
            FirstFree(d.slots, 0) == SLOTS || !InUse(d.slots, d.nextTag)
  {
    hide NextTag;
    var i := FirstFree(d.slots, 0);
    if i < SLOTS {
      var after := Add(d, target, lun, controllerId, action).slots;
      if InUse(d.slots, d.nextTag) {
        var k :| 0 <= k < SLOTS && HasTag(d.slots[k], d.nextTag);
        assert after[k] == d.slots[k] && after[i].value.tag == d.nextTag;
      } else {
        assert forall k :: 0 <= k < SLOTS ==> !HasTag(d.slots[k], d.nextTag);
      }
    }
  }

  /** `n` acceptances go round the cycle of tags a whole number of times. */
  predicate WholeCycles(n: int) { n % TAG_COUNT == 0 }

  lemma SameTagIff(m: nat, n: nat)
    ensures TagOf(m) == TagOf(n) <==> WholeCycles(n - m)
  {
    var p, q, r, s := m / TAG_COUNT, n / TAG_COUNT, m % TAG_COUNT, n % TAG_COUNT;
    assert m == p * TAG_COUNT + r && n == q * TAG_COUNT + s;
    assert n - m == (q - p) * TAG_COUNT + (s - r);
    if WholeCycles(n - m) {
      var t := (n - m) / TAG_COUNT;
      assert s - r == (t - (q - p)) * TAG_COUNT;
    }
  }

  /** The tag counter has come round to an active task. */
  ghost predicate Overtaken(d: Table) {
    exists i :: 0 <= i < SLOTS && d.slots[i].Some? && WholeCycles(d.accepted - d.slots[i].value.serial)
  }

  predicate Full(d: Table) { FirstFree(d.slots, 0) == SLOTS }

  lemma TagInUseIff(d: Table)
    requires TagsInStep(d)
    ensures InUse(d.slots, d.nextTag) <==> Overtaken(d)
  {
    hide TagOf, WholeCycles;
    if InUse(d.slots, d.nextTag) {
      var i :| 0 <= i < SLOTS && HasTag(d.slots[i], d.nextTag);
      SameTagIff(d.slots[i].value.serial, d.accepted);
    }
    if Overtaken(d) {
      var i :| 0 <= i < SLOTS && d.slots[i].Some? && WholeCycles(d.accepted - d.slots[i].value.serial);
      SameTagIff(d.slots[i].value.serial, d.accepted);
      assert HasTag(d.slots[i], d.nextTag);
    }
  }

  /** `small` keeps a subset of the tasks of `large`, in place. */
  ghost predicate Within(small: Slots, large: Slots) {
    forall i :: 0 <= i < SLOTS ==> small[i] == None || small[i] == large[i]
  }

  lemma {:induction false} AbortOnlyRemoves(d: Table, target: nat, lun: Option<nat>, i: nat)
    requires i <= SLOTS
    ensures var a := AbortFrom(d, target, lun, i);
            Within(a.slots, d.slots) && a.nextTag == d.nextTag && a.accepted == d.accepted
    decreases SLOTS - i
  {
    if i < SLOTS {
      AbortOnlyRemoves(if Matches(d.slots[i], target, lun) then Settle(d, i) else d, target, lun, i + 1);
    }
  }

  lemma {:induction false} UnregisterOnlyRemoves(d: Table, target: nat, i: nat)
    requires i <= SLOTS
    ensures var u := UnregisterFrom(d, target, i);
            Within(u.slots, d.slots) && u.nextTag == d.nextTag && u.accepted == d.accepted
    decreases SLOTS - i
  {
    if i < SLOTS {
      UnregisterOnlyRemoves(if d.slots[i].Some? && d.slots[i].value.target == target
                            then Remove(d, d.slots[i].value.tag) else d, target, i + 1);
    }
  }

  lemma {:induction false} CloseOnlyRemoves(d: Table, i: nat)
    requires i <= SLOTS
    ensures var c := CloseFrom(d, i);
            Within(c.slots, d.slots) && c.nextTag == d.nextTag && c.accepted == d.accepted
    decreases SLOTS - i
  {
    if i < SLOTS {
      CloseOnlyRemoves(if d.slots[i].Some? then Retire(d, i) else d, i + 1);
    }
  }

  lemma OthersOnlyRemove(d: Table, e: Event)
    requires !e.Accept?
    ensures Within(Step(d, e).slots, d.slots) && Step(d, e).nextTag == d.nextTag && Step(d, e).accepted == d.accepted
  {
    match e {
      case Response(tag) =>
      case AbortTask(target, controllerId) =>
      case AbortMatching(target, lun) => AbortOnlyRemoves(d, target, lun, 0);
      case Unregister(target) => UnregisterOnlyRemoves(d, target, 0);
      case Close => CloseOnlyRemoves(d, 0);
    }
  }

  /** Along the run, no acceptance finds the tag counter back at an active task. */
  ghost predicate NeverOvertaken(d: Table, es: seq<Event>)
    decreases |es|
  {
    es == [] || ((es[0].Accept? && !Full(d) ==> !Overtaken(d)) && NeverOvertaken(Step(d, es[0]), es[1..]))
  }

  ghost predicate AlwaysDistinct(d: Table, es: seq<Event>)
    decreases |es|
  {
    Distinct(d.slots) && (es == [] || AlwaysDistinct(Step(d, es[0]), es[1..]))
  }

  lemma StepKeepsTagCycle(d: Table, e: Event)
    requires TagsInStep(d)
    ensures TagsInStep(Step(d, e))
  {
    hide TagOf;
    if e.Accept? {
      NextTagCycles(d.accepted);
    } else {
      hide Step;
      OthersOnlyRemove(d, e);
    }
  }

  lemma StepKeepsTags(d: Table, e: Event)
    requires TagsInStep(d) && Distinct(d.slots)
    ensures TagsInStep(Step(d, e))
    ensures Distinct(Step(d, e).slots) <==> (e.Accept? && !Full(d) ==> !Overtaken(d))
  {
    StepKeepsTagCycle(d, e);
    hide TagOf, Overtaken;
    if e.Accept? {
      TagInUseIff(d);
      AddKeepsDistinct(d, e.target, e.lun, e.controllerId, e.action);
    } else {
      hide Step;
      OthersOnlyRemove(d, e);
    }
  }

  /** Active tasks have distinct tags all through a run if and only if no task is still active when
    the tag counter comes back to it. */
  lemma {:induction false} TagsDistinctIff(d: Table, es: seq<Event>)
    requires TagsInStep(d) && Distinct(d.slots)
    ensures AlwaysDistinct(d, es) <==> NeverOvertaken(d, es)
    decreases |es|
  {
    hide Step, TagsInStep, Distinct, Overtaken, Full;
    if es != [] {
      StepKeepsTags(d, es[0]);
      if Distinct(Step(d, es[0]).slots) {
        TagsDistinctIff(Step(d, es[0]), es[1..]);
      }
    }
  }

  /** Every tag ever handed out lies in [0x80000000, 0xFFFFFFFE]. */
  lemma {:induction false} TagsInRange(d: Table, es: seq<Event>)
    requires TagsInStep(d)
    ensures var r := Run(d, es);
            && TagsInStep(r)
            && forall i :: 0 <= i < SLOTS && r.slots[i].Some? ==> 0x8000_0000 <= r.slots[i].value.tag <= 0xffff_fffe
    decreases |es|
  {
    hide Step;
    if es == [] {
      forall i | 0 <= i < SLOTS && d.slots[i].Some?
        ensures 0x8000_0000 <= d.slots[i].value.tag <= 0xffff_fffe
      {
        NextTagCycles(d.slots[i].value.serial);
      }
    } else {
      StepKeepsTagCycle(d, es[0]);
      TagsInRange(Step(d, es[0]), es[1..]);
    }
  }

  /** Along the run, no task lives through as many acceptances as there are tags. */
  ghost predicate YoungRun(d: Table, es: seq<Event>)
    decreases |es|
  {
    es == [] || ((es[0].Accept? ==> Young(d)) && YoungRun(Step(d, es[0]), es[1..]))
  }

  ghost predicate Young(d: Table) {
    forall i :: 0 <= i < SLOTS && d.slots[i].Some? ==> d.accepted - d.slots[i].value.serial < TAG_COUNT
  }

  lemma {:induction false} YoungNeverOvertaken(d: Table, es: seq<Event>)
    requires Ledger(d) && YoungRun(d, es)
    ensures NeverOvertaken(d, es)
    decreases |es|
  {
    hide Step;
    if es != [] {
      StepKeepsLedger(d, es[0]);
      YoungNeverOvertaken(Step(d, es[0]), es[1..]);
    }
  }

  // ----- What each clearing loop leaves in the slots

  function Aborted(target: nat, lun: Option<nat>): Task -> bool {
    (t: Task) => t.target == target && t.action.Some? && (lun == None || t.lun == lun.value)
  }

  function OfTarget(target: nat): Task -> bool {
    (t: Task) => t.target == target
  }

  /** The slots with every task that satisfies `gone` taken out, and no other slot touched. */
  ghost function Without(slots: Slots, gone: Task -> bool): Slots {
    seq(SLOTS, k requires 0 <= k < SLOTS => if slots[k].Some? && gone(slots[k].value) then None else slots[k])
  }

  lemma {:induction false} AbortScan(d: Table, target: nat, lun: Option<nat>, i: nat, slots: Slots)
    requires i <= SLOTS
    requires forall k :: 0 <= k < SLOTS ==>
               d.slots[k] == if k < i then Without(slots, Aborted(target, lun))[k] else slots[k]
    ensures AbortFrom(d, target, lun, i).slots == Without(slots, Aborted(target, lun))
    decreases SLOTS - i
  {
    if i < SLOTS {
      AbortScan(if Matches(d.slots[i], target, lun) then Settle(d, i) else d, target, lun, i + 1, slots);
    }
  }

  /** Aborting a task set or resetting a unit or target clears exactly the slots whose task is of the target, of the
    unit if one is named, and has an action to complete it with. */
  lemma AbortClearsMatching(d: Table, target: nat, lun: Option<nat>)
    ensures AbortFrom(d, target, lun, 0).slots == Without(d.slots, Aborted(target, lun))
    ensures forall k {:trigger d.slots[k]} :: 0 <= k < SLOTS ==>
              var s := d.slots[k];
              AbortFrom(d, target, lun, 0).slots[k] ==
              if s.Some? && s.value.target == target && s.value.action.Some? && (lun == None || s.value.lun == lun.value)
              then None else s
  {
    AbortScan(d, target, lun, 0, d.slots);
  }

  /** Aborting one task clears the first slot whose task is of the target, goes by the controller's identifier, and
    has an action to complete it with. */
  lemma AbortClearsFirst(d: Table, target: nat, controllerId: nat, k: nat)
    requires k < SLOTS
    ensures var after := Abort(d, target, controllerId).slots;
            && (after[k] == d.slots[k] || after[k] == None)
            && (after[k] != d.slots[k] <==>
                && d.slots[k].Some? && d.slots[k].value.target == target
                && d.slots[k].value.controllerId == controllerId && d.slots[k].value.action.Some?
                && forall j :: 0 <= j < k && d.slots[j].Some? ==>
                     d.slots[j].value.target != target || d.slots[j].value.controllerId != controllerId
                     || d.slots[j].value.action.None?)
  {
    var i := FirstController(d.slots, target, controllerId, 0);
    if i < SLOTS {
      assert IsController(d.slots[i], target, controllerId);
    }
    if k < i {
      assert !IsController(d.slots[k], target, controllerId);
    }
  }

  /** A task of the target in slot `i` whose tag is also held, further forward, by another target. */
  predicate Shadowed(slots: Slots, target: nat, k: nat, i: nat) {
    && k < i < SLOTS && slots[k].Some? && slots[i].Some?
    && slots[i].value.target == target && slots[k].value.target != target
    && slots[k].value.tag == slots[i].value.tag
  }

  /** The table in the middle of unregistering: the target's tasks are gone before slot `i`. */
  ghost predicate ScannedTo(d: Table, target: nat, i: nat, slots: Slots) {
    forall k :: 0 <= k < SLOTS ==> d.slots[k] == if k < i then Without(slots, OfTarget(target))[k] else slots[k]
  }

  lemma ShadowAt(d: Table, target: nat, i: nat, slots: Slots)
    requires ScannedTo(d, target, i, slots) && i < SLOTS
    requires slots[i].Some? && slots[i].value.target == target
    ensures var f := FirstTag(d.slots, slots[i].value.tag, 0);
            && f <= i
            && (f < i ==> Shadowed(slots, target, f, i))
            && (f == i ==> forall k: nat :: !Shadowed(slots, target, k, i))
  {
    assert HasTag(d.slots[i], slots[i].value.tag);
  }

  lemma {:induction false} UnregisterScan(d: Table, target: nat, i: nat, slots: Slots)
    requires i <= SLOTS && ScannedTo(d, target, i, slots)
    requires forall k: nat, j: nat :: Shadowed(slots, target, k, j) ==> i <= j
    ensures UnregisterFrom(d, target, i).slots == Without(slots, OfTarget(target)) <==>
            forall k: nat, j: nat :: !Shadowed(slots, target, k, j)
    decreases SLOTS - i
  {
    if i < SLOTS && d.slots[i].Some? && d.slots[i].value.target == target {
      var next := Remove(d, d.slots[i].value.tag);
      var f := FirstTag(d.slots, d.slots[i].value.tag, 0);
      ShadowAt(d, target, i, slots);
      if f < i {
        UnregisterOnlyRemoves(next, target, i + 1);
        assert UnregisterFrom(d, target, i).slots[f] == None;
        assert Without(slots, OfTarget(target))[f] == slots[f];
      } else {
        UnregisterScan(next, target, i + 1, slots);
      }
    } else if i < SLOTS {
      UnregisterScan(d, target, i + 1, slots);
    }
  }

  /** Unregistering a session clears exactly the tasks of its target, touching no other, if and only
    if no task of another target sits in front of one of them with the same tag. */
  lemma UnregisterClearsTarget(d: Table, target: nat)
    ensures UnregisterFrom(d, target, 0).slots == Without(d.slots, OfTarget(target)) <==>
            forall k: nat, i: nat :: !Shadowed(d.slots, target, k, i)
  {
    UnregisterScan(d, target, 0, d.slots);
  }

  // ----- The table as a map from tag to task

  function Tags(slots: Slots): set<u32> {
    set k | 0 <= k < SLOTS && slots[k].Some? :: slots[k].value.tag
  }

  lemma TagsAreFound(slots: Slots, tag: u32)
    ensures tag in Tags(slots) <==> FirstTag(slots, tag, 0) < SLOTS
  {
    if tag in Tags(slots) {
      var k :| 0 <= k < SLOTS && slots[k].Some? && slots[k].value.tag == tag;
      assert HasTag(slots[k], tag);
    }
  }

  function Found(slots: Slots, tag: u32): Task
    requires tag in Tags(slots)
  {
    TagsAreFound(slots, tag);
    slots[FirstTag(slots, tag, 0)].value
  }

  /** What a scan from the front finds for each tag. */
  ghost function TagMap(slots: Slots): map<u32, Task> {
    map tag | tag in Tags(slots) :: Found(slots, tag)
  }

  ghost predicate Holds(slots: Slots, t: Task) {
    exists k :: 0 <= k < SLOTS && slots[k] == Some(t)
  }

  lemma FirstTagIs(slots: Slots, k: nat)
    requires Distinct(slots) && k < SLOTS && slots[k].Some?
    ensures FirstTag(slots, slots[k].value.tag, 0) == k
  {
    assert HasTag(slots[k], slots[k].value.tag);
  }

  lemma TagMapAt(slots: Slots, t: Task)
    requires Distinct(slots) && Holds(slots, t)
    ensures t.tag in TagMap(slots) && TagMap(slots)[t.tag] == t
  {
    var k :| 0 <= k < SLOTS && slots[k] == Some(t);
    FirstTagIs(slots, k);
    hide Tags, Distinct, FirstTag;
    TagsAreFound(slots, t.tag);
  }

  lemma TagMapHolds(slots: Slots, tag: u32)
    requires tag in TagMap(slots)
    ensures Holds(slots, TagMap(slots)[tag]) && TagMap(slots)[tag].tag == tag
  {
    hide Tags;
    TagsAreFound(slots, tag);
    assert slots[FirstTag(slots, tag, 0)] == Some(TagMap(slots)[tag]);
  }

  ghost function Others(m: map<u32, Task>, gone: Task -> bool): map<u32, Task> {
    map tag | tag in m && !gone(m[tag]) :: m[tag]
  }

  lemma HeldWithout(slots: Slots, gone: Task -> bool, t: Task)
    ensures Holds(Without(slots, gone), t) <==> Holds(slots, t) && !gone(t)
  {
    if Holds(slots, t) && !gone(t) {
      var k :| 0 <= k < SLOTS && slots[k] == Some(t);
      assert Without(slots, gone)[k] == Some(t);
    }
  }

  lemma WithoutKeepsDistinct(slots: Slots, gone: Task -> bool)
    requires Distinct(slots)
    ensures Distinct(Without(slots, gone))
  {}

  lemma WithoutIsOthers(slots: Slots, gone: Task -> bool)
    requires Distinct(slots)
    ensures Distinct(Without(slots, gone))
    ensures TagMap(Without(slots, gone)) == Others(TagMap(slots), gone)
  {
    WithoutKeepsDistinct(slots, gone);
    hide TagMap, Distinct, Without, Holds;
    var left := Without(slots, gone);
    forall tag | tag in TagMap(left)
      ensures tag in Others(TagMap(slots), gone) && TagMap(left)[tag] == TagMap(slots)[tag]
    {
      TagMapHolds(left, tag);
      HeldWithout(slots, gone, TagMap(left)[tag]);
      TagMapAt(slots, TagMap(left)[tag]);
    }
    forall tag | tag in Others(TagMap(slots), gone) ensures tag in TagMap(left) {
      TagMapHolds(slots, tag);
      HeldWithout(slots, gone, TagMap(slots)[tag]);
      TagMapAt(left, TagMap(slots)[tag]);
    }
  }

  lemma EmptiedIsWithout(slots: Slots, i: nat)
    requires Distinct(slots) && i < SLOTS && slots[i].Some?
    ensures slots[i := None] == Without(slots, WithTag(slots[i].value.tag))
  {}

  function WithTag(tag: u32): Task -> bool {
    (t: Task) => t.tag == tag
  }

  lemma OthersThanTag(m: map<u32, Task>, tag: u32)
    requires forall t :: t in m ==> m[t].tag == t
    ensures Others(m, WithTag(tag)) == m - {tag}
  {}

  lemma EmptyingIsRemoval(slots: Slots, i: nat)
    requires Distinct(slots) && i < SLOTS && slots[i].Some?
    ensures TagMap(slots[i := None]) == TagMap(slots) - {slots[i].value.tag}
  {
    EmptiedIsWithout(slots, i);
    hide TagMap, Distinct, Without, Holds, WithTag, Others;
    WithoutIsOthers(slots, WithTag(slots[i].value.tag));
    forall tag | tag in TagMap(slots) ensures TagMap(slots)[tag].tag == tag {
      TagMapHolds(slots, tag);
    }
    OthersThanTag(TagMap(slots), slots[i].value.tag);
  }

  lemma FilledIsDistinct(slots: Slots, i: nat, t: Task)
    requires Distinct(slots) && i < SLOTS && slots[i].None? && !InUse(slots, t.tag)
    ensures Distinct(slots[i := Some(t)])
  {
    assert forall k :: 0 <= k < SLOTS ==> !HasTag(slots[k], t.tag);
  }

  lemma HeldFilled(slots: Slots, i: nat, t: Task, u: Task)
    requires i < SLOTS && slots[i].None?
    ensures Holds(slots[i := Some(t)], u) <==> Holds(slots, u) || u == t
  {
    var after := slots[i := Some(t)];
    assert after[i] == Some(t);
    if Holds(slots, u) {
      var k :| 0 <= k < SLOTS && slots[k] == Some(u);
      assert after[k] == Some(u);
    }
  }

  lemma NotHeld(slots: Slots, t: Task)
    requires Holds(slots, t)
    ensures InUse(slots, t.tag)
  {
    var k :| 0 <= k < SLOTS && slots[k] == Some(t);
    assert HasTag(slots[k], t.tag);
  }

  lemma FillingIsInsertion(slots: Slots, i: nat, t: Task)
    requires Distinct(slots) && i < SLOTS && slots[i].None? && !InUse(slots, t.tag)
    ensures TagMap(slots[i := Some(t)]) == TagMap(slots)[t.tag := t]
  {
    FilledIsDistinct(slots, i, t);
    hide TagMap, Distinct, Holds, InUse;
    var after := slots[i := Some(t)];
    HeldFilled(slots, i, t, t);
    TagMapAt(after, t);
    forall tag | tag in TagMap(slots)
      ensures tag in TagMap(after) && tag != t.tag && TagMap(after)[tag] == TagMap(slots)[tag]
    {
      TagMapHolds(slots, tag);
      NotHeld(slots, TagMap(slots)[tag]);
      HeldFilled(slots, i, t, TagMap(slots)[tag]);
      TagMapAt(after, TagMap(slots)[tag]);
    }
    forall tag | tag in TagMap(after) && tag != t.tag ensures tag in TagMap(slots) {
      TagMapHolds(after, tag);
      HeldFilled(slots, i, t, TagMap(after)[tag]);
      TagMapAt(slots, TagMap(after)[tag]);
    }
  }

  ghost function TagsUpTo(slots: Slots, n: nat): set<u32>
    requires n <= SLOTS
  {
    set k | 0 <= k < n && slots[k].Some? :: slots[k].value.tag
  }

  lemma OneMoreTag(slots: Slots, n: nat)
    requires Distinct(slots) && 0 < n <= SLOTS
    ensures |TagsUpTo(slots, n)| == |TagsUpTo(slots, n - 1)| + if slots[n - 1].Some? then 1 else 0
  {
    var last := slots[n - 1];
    if last.Some? {
      assert TagsUpTo(slots, n) == TagsUpTo(slots, n - 1) + {last.value.tag};
      assert last.value.tag !in TagsUpTo(slots, n - 1);
    } else {
      assert TagsUpTo(slots, n) == TagsUpTo(slots, n - 1);
    }
  }

  lemma {:induction false} TagsCounted(slots: Slots, n: nat)
    requires Distinct(slots) && n <= SLOTS
    ensures |TagsUpTo(slots, n)| == ActiveCount(slots[..n])
    decreases n
  {
    if n == 0 {
      assert TagsUpTo(slots, 0) == {};
    } else {
      hide TagsUpTo, Distinct;
      TagsCounted(slots, n - 1);
      OneMoreTag(slots, n);
      assert slots[..n][..n - 1] == slots[..n - 1];
    }
  }

  lemma AllTags(slots: Slots)
    ensures |TagMap(slots)| == |TagsUpTo(slots, SLOTS)|
  {
    assert TagsUpTo(slots, SLOTS) == Tags(slots) == TagMap(slots).Keys;
  }

  /** The map holds as many tasks as there are active slots, so it is full exactly when the scan for
    a free slot fails. */
  lemma MapSize(slots: Slots)
    requires Distinct(slots)
    ensures |TagMap(slots)| == ActiveCount(slots) <= SLOTS
    ensures |TagMap(slots)| == SLOTS <==> FirstFree(slots, 0) == SLOTS
  {
    hide TagMap, Tags, TagsUpTo, ActiveCount, Distinct;
    AllTags(slots);
    TagsCounted(slots, SLOTS);
    assert slots[..SLOTS] == slots;
    CountDecidesScans(slots);
  }

  /** The abstract table: a map from tag to task, and the number of tasks accepted so far. */
  datatype Pending = Pending(tasks: map<u32, Task>, accepted: nat)

  predicate Controls(p: Pending, tag: u32, target: nat, controllerId: nat) {
    tag in p.tasks
    && p.tasks[tag].target == target && p.tasks[tag].controllerId == controllerId && p.tasks[tag].action.Some?
  }

  /** One of the tasks the identifier names is gone, if it names any. */
  ghost predicate OneAborted(p: Pending, target: nat, controllerId: nat, q: Pending) {
    || (exists tag :: Controls(p, tag, target, controllerId) && q == Pending(p.tasks - {tag}, p.accepted))
    || (q == p && forall tag :: !Controls(p, tag, target, controllerId))
  }

  ghost predicate MapStep(p: Pending, e: Event, q: Pending) {
    match e
    case Accept(target, lun, controllerId, action) =>
      var tag := TagOf(p.accepted);
      q == if |p.tasks| == SLOTS then p
           else Pending(p.tasks[tag := Task(target, lun, tag, controllerId, action, p.accepted)], p.accepted + 1)
    case Response(tag) =>
      q == if tag in p.tasks && p.tasks[tag].action.Some? then Pending(p.tasks - {tag}, p.accepted) else p
    case AbortTask(target, controllerId) =>
      OneAborted(p, target, controllerId, q)
    case AbortMatching(target, scope) => q == Pending(Others(p.tasks, Aborted(target, scope)), p.accepted)
    case Unregister(target) => q == Pending(Others(p.tasks, OfTarget(target)), p.accepted)
    case Close => q == Pending(map[], p.accepted)
  }

  ghost function Abstract(d: Table): Pending { Pending(TagMap(d.slots), d.accepted) }

  lemma AcceptRefines(d: Table, e: Event)
    requires e.Accept? && TagsInStep(d) && Distinct(d.slots) && (!Full(d) ==> !InUse(d.slots, d.nextTag))
    ensures MapStep(Abstract(d), e, Abstract(Step(d, e)))
  {
    hide TagMap, TagOf, NextTag;
    MapSize(d.slots);
    var i := FirstFree(d.slots, 0);
    if i < SLOTS {
      FillingIsInsertion(d.slots, i, Task(e.target, e.lun, d.nextTag, e.controllerId, e.action, d.accepted));
    }
  }

  lemma ResponseRefines(d: Table, tag: u32)
    requires Distinct(d.slots)
    ensures MapStep(Abstract(d), Response(tag), Abstract(Respond(d, tag)))
  {
    RespondRetiresFirst(d, tag);
    TagsAreFound(d.slots, tag);
    var i := FirstTag(d.slots, tag, 0);
    if i < SLOTS {
      assert Holds(d.slots, d.slots[i].value);
      TagMapAt(d.slots, d.slots[i].value);
      EmptyingIsRemoval(d.slots, i);
    }
  }

  lemma AbortTaskRefines(d: Table, target: nat, controllerId: nat)
    requires Distinct(d.slots)
    ensures MapStep(Abstract(d), AbortTask(target, controllerId), Abstract(Abort(d, target, controllerId)))
  {
    hide TagMap, Distinct;
    var p := Abstract(d);
    var i := FirstController(d.slots, target, controllerId, 0);
    if i < SLOTS {
      assert Holds(d.slots, d.slots[i].value);
      TagMapAt(d.slots, d.slots[i].value);
      EmptyingIsRemoval(d.slots, i);
      assert Controls(p, d.slots[i].value.tag, target, controllerId);
    } else {
      forall tag | tag in p.tasks ensures !Controls(p, tag, target, controllerId) {
        TagMapHolds(d.slots, tag);
      }
    }
  }

  lemma UnregisterRefines(d: Table, target: nat)
    requires Distinct(d.slots)
    ensures MapStep(Abstract(d), Unregister(target), Abstract(UnregisterFrom(d, target, 0)))
  {
    hide TagMap, UnregisterFrom, Without;
    UnregisterClearsTarget(d, target);
    WithoutIsOthers(d.slots, OfTarget(target));
    UnregisterOnlyRemoves(d, target, 0);
  }

  lemma AbortMatchingRefines(d: Table, target: nat, scope: Option<nat>)
    requires Distinct(d.slots)
    ensures MapStep(Abstract(d), AbortMatching(target, scope), Abstract(AbortFrom(d, target, scope, 0)))
  {
    hide TagMap, AbortFrom, Without;
    AbortClearsMatching(d, target, scope);
    WithoutIsOthers(d.slots, Aborted(target, scope));
    AbortOnlyRemoves(d, target, scope, 0);
  }

  lemma CloseRefines(d: Table)
    ensures MapStep(Abstract(d), Close, Abstract(CloseFrom(d, 0)))
  {
    hide CloseFrom;
    CloseEmpties(d, 0);
    CloseOnlyRemoves(d, 0);
    assert Tags(NO_TASKS) == {};
  }

  /** While tags are distinct and a fresh tag is free, every operation on the slots is the
    corresponding operation on the map. */
  lemma StepRefines(d: Table, e: Event)
    requires TagsInStep(d) && Distinct(d.slots) && (e.Accept? && !Full(d) ==> !Overtaken(d))
    ensures MapStep(Abstract(d), e, Abstract(Step(d, e)))
  {
    hide TagMap, Abstract, MapStep, AbortFrom, CloseFrom, UnregisterFrom, Add, Respond, Abort;
    match e {
      case Accept(target, lun, controllerId, action) =>
        TagInUseIff(d);
        AcceptRefines(d, e);
      case Response(tag) => ResponseRefines(d, tag);
      case AbortTask(target, controllerId) => AbortTaskRefines(d, target, controllerId);
      case AbortMatching(target, scope) => AbortMatchingRefines(d, target, scope);
      case Unregister(target) => UnregisterRefines(d, target);
      case Close => CloseRefines(d);
    }
  }

  ghost predicate MapRun(p: Pending, es: seq<Event>, q: Pending)
    decreases |es|
  {
    if es == [] then q == p
    else exists mid :: MapStep(p, es[0], mid) && MapRun(mid, es[1..], q)
  }

  /** Every run of the slot table in which no active task is overtaken is a run of the map. */
  lemma {:induction false} RunRefines(d: Table, es: seq<Event>)
    requires TagsInStep(d) && Distinct(d.slots) && NeverOvertaken(d, es)
    ensures MapRun(Abstract(d), es, Abstract(Run(d, es)))
    decreases |es|
  {
    hide Step, MapStep, Abstract, TagsInStep, Distinct, Overtaken, Full;
    if es != [] {
      StepRefines(d, es[0]);
      StepKeepsTags(d, es[0]);
      RunRefines(Step(d, es[0]), es[1..]);
    }
  }

  /** From an empty table, with no task outliving 0x7FFFFFFF acceptances: tags are distinct at every
    point, and the table is a map. */
  lemma YoungRunsRefine(es: seq<Event>)
    requires YoungRun(INITIAL, es)
    ensures AlwaysDistinct(INITIAL, es)
    ensures MapRun(Pending(map[], 0), es, Abstract(Run(INITIAL, es)))
  {
    InitialLedger();
    assert TagsInStep(INITIAL) && Distinct(INITIAL.slots);
    assert TagMap(NO_TASKS) == map[];
    hide YoungRun, NeverOvertaken, AlwaysDistinct, MapRun, TagMap, Run;
    YoungNeverOvertaken(INITIAL, es);
    TagsDistinctIff(INITIAL, es);
    RunRefines(INITIAL, es);
  }

  // ----- A task that outlives the cycle

  /** `n` tasks accepted and answered at once. */
  function Churn(n: nat): seq<Event> {
    if n == 0 then [] else Churn(n - 1) + [Accept(0, 0, 0, Some(0)), Response(TagOf(n))]
  }

  lemma {:induction false} RunConcat(d: Table, a: seq<Event>, b: seq<Event>)
    ensures Run(d, a + b) == Run(Run(d, a), b)
    decreases |a|
  {
    hide Step;
    if a == [] {
      assert a + b == b;
    } else {
      assert (a + b)[0] == a[0] && (a + b)[1..] == a[1..] + b;
      RunConcat(Step(d, a[0]), a[1..], b);
    }
  }

  lemma RunTwo(d: Table, a: Event, b: Event)
    ensures Run(d, [a, b]) == Step(Step(d, a), b)
  {
    hide Step;
    assert [a, b][1..] == [b] && [b][1..] == [];
    assert Run(Step(d, a), [b]) == Run(Step(Step(d, a), b), []);
  }

  ghost predicate OldAndIdle(d: Table, n: nat) {
    && d.accepted == n + 1 && d.nextTag == TagOf(n + 1)
    && d.slots[0] == Some(Task(1, 0, TAG_BASE, 0, Some(0), 0))
    && forall k :: 1 <= k < SLOTS ==> d.slots[k].None?
  }

  lemma ChurnStep(d: Table, n: nat)
    requires OldAndIdle(d, n) && n + 1 < TAG_COUNT
    ensures OldAndIdle(Step(Step(d, Accept(0, 0, 0, Some(0))), Response(TagOf(n + 1))), n + 1)
  {
    NextTagCycles(n + 1);
    hide NextTag;
    assert FirstFree(d.slots, 0) == 1;
    var a := Step(d, Accept(0, 0, 0, Some(0)));
    assert HasTag(a.slots[1], TagOf(n + 1)) && !HasTag(a.slots[0], TagOf(n + 1));
    assert FirstTag(a.slots, TagOf(n + 1), 0) == 1;
    RespondRetiresFirst(a, TagOf(n + 1));
    assert a.slots[1 := None] == d.slots;
  }

  lemma {:induction false} ChurnKeepsOldTask(d: Table, n: nat)
    requires OldAndIdle(d, 0) && n < TAG_COUNT
    ensures OldAndIdle(Run(d, Churn(n)), n)
    decreases n
  {
    hide Step, OldAndIdle;
    if n > 0 {
      ChurnKeepsOldTask(d, n - 1);
      var before := Run(d, Churn(n - 1));
      var pair := [Accept(0, 0, 0, Some(0)), Response(TagOf(n))];
      RunConcat(d, Churn(n - 1), pair);
      RunTwo(before, pair[0], pair[1]);
      ChurnStep(before, n - 1);
    }
  }

  const OLD_TASK: Event := Accept(1, 0, 0, Some(0))
  const NEW_TASK: Event := Accept(0, 0, 0, Some(0))

  /** A task of target 1, a whole cycle of tasks of target 0 answered at once, and one more. */
  function WholeCycle(): seq<Event> { [OLD_TASK] + Churn(TAG_COUNT - 1) + [NEW_TASK] }

  lemma AfterWholeCycle()
    ensures var d := Run(INITIAL, WholeCycle());
            && d.slots[0] == Some(Task(1, 0, TAG_BASE, 0, Some(0), 0))
            && d.slots[1] == Some(Task(0, 0, TAG_BASE, 0, Some(0), TAG_COUNT))
            && forall k :: 2 <= k < SLOTS ==> d.slots[k].None?
  {
    hide Churn;
    RunConcat(INITIAL, [OLD_TASK] + Churn(TAG_COUNT - 1), [NEW_TASK]);
    RunConcat(INITIAL, [OLD_TASK], Churn(TAG_COUNT - 1));
    var d0 := Run(INITIAL, [OLD_TASK]);
    assert [OLD_TASK][1..] == [] && [NEW_TASK][1..] == [];
    assert d0 == Step(INITIAL, OLD_TASK);
    NextTagCycles(0);
    assert OldAndIdle(d0, 0);
    ChurnKeepsOldTask(d0, TAG_COUNT - 1);
    var d := Run(d0, Churn(TAG_COUNT - 1));
    assert Run(INITIAL, WholeCycle()) == Run(d, [NEW_TASK]) == Step(d, NEW_TASK);
    assert TagOf(TAG_COUNT) == TAG_BASE;
    assert FirstFree(d.slots, 0) == 1;
  }

  /** The bound is needed: a task that waits through a whole cycle of tags ends up sharing its tag
    with a new one. */
  lemma TagReused()
    ensures !Distinct(Run(INITIAL, WholeCycle()).slots)
  {
    hide Run, WholeCycle;
    AfterWholeCycle();
  }

  /** Then the old task shadows the new one: unregistering target 0 drops the task of target 1 and
    leaves its own. */
  lemma UnregisterDropsForeign()
    ensures var d := Run(INITIAL, WholeCycle());
            var after := Step(d, Unregister(0));
            && Shadowed(d.slots, 0, 0, 1)
            && d.slots[0].value.target == 1 && after.slots[0].None?
            && d.slots[1].value.target == 0 && after.slots[1] == d.slots[1]
  {
    hide Run, WholeCycle, TagOf;
    AfterWholeCycle();
    var d := Run(INITIAL, WholeCycle());
    assert HasTag(d.slots[0], TAG_BASE) && FirstTag(d.slots, TAG_BASE, 0) == 0;
    var next := Remove(d, TAG_BASE);
    assert next.slots == d.slots[0 := None];
    assert UnregisterFrom(d, 0, 0) == UnregisterFrom(d, 0, 1) == UnregisterFrom(next, 0, 2);
    UnregisterNothing(next, 0, 2);
  }

  lemma {:induction false} UnregisterNothing(d: Table, target: nat, i: nat)
    requires i <= SLOTS && forall k :: i <= k < SLOTS ==> d.slots[k].None?
    ensures UnregisterFrom(d, target, i) == d
    decreases SLOTS - i
  {
    if i < SLOTS {
      UnregisterNothing(d, target, i + 1);
    }
  }
}
