/** The driver extension's operations on its table of pending tasks, which scan and overwrite the
  slots in place. */
module DextTable {
  import opened Words
  import opened SlotScan
  import opened DextTasks
  import DextTags

  class PendingTasks {
    const slots: array<Option<Task>>
    var nextTag: u32
    var accepted: nat
    // The calls made on completion actions, by serial, and the tasks taken out of the table
    var retained: seq<nat>
    var completed: seq<nat>
    var released: seq<nat>
    var retired: seq<nat>

    ghost predicate Valid() { slots.Length == SLOTS }

    ghost function View(): Table
      requires Valid()
      reads this, slots
    {
      Table(slots[..], nextTag, accepted, retained, completed, released, retired)
    }

    constructor ()
      ensures Valid() && fresh(slots) && View() == INITIAL
    {
      slots := new Option<Task>[SLOTS](_ => None);
      nextTag, accepted := TAG_BASE, 0;
      retained, completed, released, retired := [], [], [], [];
      new;
      assert slots[..] == NO_TASKS;
    }

    method NextTaskTag() returns (tag: u32)
      requires Valid()
      modifies this`nextTag
      ensures View() == old(View()).(nextTag := NextTag(tag)) && tag == old(nextTag)
    {
      tag := nextTag;
      nextTag := Inc32(nextTag);
      if nextTag == 0 || nextTag == 0xffff_ffff {
        nextTag := TAG_BASE;
      }
    }

    /** The task waits in the slot returned, with no controller identifier yet; -1 if none is free. */
    method AddPendingTask(target: nat, lun: nat, action: Option<nat>) returns (index: int)
      requires Valid()
      modifies this, slots
      ensures View() == Add(old(View()), target, lun, 0, action)
      ensures index == if FirstFree(old(View()).slots, 0) == SLOTS then -1 else FirstFree(old(View()).slots, 0)
      ensures index < 0 <==> forall i :: 0 <= i < 256 ==> old(slots[i]).Some?
    {
      for i := 0 to SLOTS
        invariant View() == old(View())
        invariant FirstFree(old(View()).slots, 0) == FirstFree(old(View()).slots, i)
      {
        if slots[i].None? {
          var tag := NextTaskTag();
          slots[i] := Some(Task(target, lun, tag, 0, action, accepted));
          if action.Some? {
            retained := retained + [accepted];
          }
          accepted := accepted + 1;
          return i;
        }
      }
      return -1;
    }

    /** Accepts a task and then stores the identifier its controller knows it by. */
    method Accept(target: nat, lun: nat, controllerId: nat, action: Option<nat>) returns (index: int)
      requires Valid()
      modifies this, slots
      ensures View() == Add(old(View()), target, lun, controllerId, action)
      ensures index == if FirstFree(old(View()).slots, 0) == SLOTS then -1 else FirstFree(old(View()).slots, 0)
    {
      index := AddPendingTask(target, lun, action);
      if index >= 0 {
        slots[index] := Some(slots[index].value.(controllerId := controllerId));
        assert View().slots == Add(old(View()), target, lun, controllerId, action).slots;
      }
    }

    method ClearSlot(i: nat)
      requires Valid() && i < SLOTS && slots[i].Some?
      modifies this, slots
      ensures View() == Retire(old(View()), i)
    {
      var t := slots[i].value;
      if t.action.Some? {
        released := released + [t.serial];
      }
      retired := retired + [t.serial];
      slots[i] := None;
    }

    method CompleteAndClear(i: nat)
      requires Valid() && i < SLOTS && slots[i].Some?
      modifies this, slots
      ensures View() == Settle(old(View()), i)
    {
      completed := completed + [slots[i].value.serial];
      ClearSlot(i);
    }

    method RemovePendingTask(tag: u32)
      requires Valid()
      modifies this, slots
      ensures View() == Remove(old(View()), tag)
    {
      for i := 0 to SLOTS
        invariant View() == old(View())
        invariant FirstTag(old(View()).slots, tag, 0) == FirstTag(old(View()).slots, tag, i)
      {
        if slots[i].Some? && slots[i].value.tag == tag {
          ClearSlot(i);
          break;
        }
      }
    }

    method GetPendingTask(tag: u32) returns (index: int)
      requires Valid()
      ensures index == if FirstTag(View().slots, tag, 0) == SLOTS then -1 else FirstTag(View().slots, tag, 0)
    {
      for i := 0 to SLOTS
        invariant FirstTag(View().slots, tag, 0) == FirstTag(View().slots, tag, i)
      {
        if slots[i].Some? && slots[i].value.tag == tag {
          return i;
        }
      }
      return -1;
    }

    /** A SCSI response arrives for a tag; `found` tells whether a task was there to complete. */
    method ScsiResponse(tag: u32) returns (found: bool)
      requires Valid()
      modifies this, slots
      ensures View() == Respond(old(View()), tag)
      ensures found <==> |retired| > |old(retired)|
    {
      var i := GetPendingTask(tag);
      if i < 0 || slots[i].value.action.None? {
        return false;
      }
      completed := completed + [slots[i].value.serial];
      RemovePendingTask(tag);
      return true;
    }

    method AbortTaskRequest(target: nat, controllerId: nat)
      requires Valid()
      modifies this, slots
      ensures View() == Abort(old(View()), target, controllerId)
    {
      for i := 0 to SLOTS
        invariant View() == old(View())
        invariant FirstController(old(View()).slots, target, controllerId, 0)
               == FirstController(old(View()).slots, target, controllerId, i)
      {
        if slots[i].Some? && slots[i].value.target == target && slots[i].value.controllerId == controllerId
           && slots[i].value.action.Some? {
          CompleteAndClear(i);
          return;
        }
      }
    }

    /** The loop of the task set abort and of the unit reset, which name a unit, and of the task set
      clearing and the target reset, which do not. */
    method AbortTasks(target: nat, lun: Option<nat>)
      requires Valid()
      modifies this, slots
      ensures View() == AbortFrom(old(View()), target, lun, 0)
      ensures forall k :: 0 <= k < 256 ==>
                slots[k] == if old(slots[k].Some? && slots[k].value.target == target && slots[k].value.action.Some?)
                               && (lun == None || old(slots[k].Some? && slots[k].value.lun == lun.value))
                            then None else old(slots[k])
    {
      DextTags.AbortClearsMatching(View(), target, lun);
      for i := 0 to SLOTS
        invariant AbortFrom(View(), target, lun, i) == AbortFrom(old(View()), target, lun, 0)
      {
        if slots[i].Some? && slots[i].value.target == target && slots[i].value.action.Some?
           && (lun == None || slots[i].value.lun == lun.value) {
          CompleteAndClear(i);
        }
      }
    }

    method UnregisterTarget(target: nat)
      requires Valid()
      modifies this, slots
      ensures View() == UnregisterFrom(old(View()), target, 0)
    {
      for i := 0 to SLOTS
        invariant UnregisterFrom(View(), target, i) == UnregisterFrom(old(View()), target, 0)
      {
        if slots[i].Some? && slots[i].value.target == target {
          RemovePendingTask(slots[i].value.tag);
        }
      }
    }

    method Close()
      requires Valid()
      modifies this, slots
      ensures View() == CloseFrom(old(View()), 0)
    {
      for i := 0 to SLOTS
        invariant CloseFrom(View(), i) == CloseFrom(old(View()), 0)
      {
        if slots[i].Some? {
          ClearSlot(i);
        }
      }
    }
  }
}
