/** Initiator task tags: the SCSI task identifier, the logical unit and the task type packed into
  one word. */
module TaskTag {

  type Tag = bv32

  const SCSI_TASK: bv32 := 0
  const LATENCY_TASK: bv32 := 1
  const TASK_MGMT: bv32 := 2

  function Truncate(x: bv64): bv32 { (x & 0xffff_ffff) as bv32 }

  function BuildTag(taskType: bv32, lun: bv64, taskId: bv64): Tag {
    Truncate(taskId) | (Truncate(lun) << 16) | (taskType << 24)
  }

  function TypeOf(tag: Tag): bv32 { (tag >> 24) & 0xff }

  function LunOf(tag: Tag): bv64 { ((tag >> 16) & 0xff) as bv64 }

  function TaskIdOf(tag: Tag): bv64 { (tag & 0xffff) as bv64 }

  const LATENCY_TAG: Tag := BuildTag(LATENCY_TASK, 0, 0)

  /** All three fields come back if and only if the task identifier fits 16 bits and the logical
    unit fits 8. */
  lemma FieldsComeBack(taskType: bv32, lun: bv64, taskId: bv64)
    requires taskType <= TASK_MGMT
    ensures TypeOf(BuildTag(taskType, lun, taskId)) == taskType &&
            LunOf(BuildTag(taskType, lun, taskId)) == lun &&
            TaskIdOf(BuildTag(taskType, lun, taskId)) == taskId
            <==> taskId < 0x1_0000 && lun < 0x100
  {}

  /** In range, tags of different tasks differ; the SCSI tag 0 is task 0 of logical unit 0; and no
    SCSI task shares the tag of the latency probe. */
  lemma TagsDistinguish(lun: bv64, taskId: bv64, lun': bv64, taskId': bv64)
    requires taskId < 0x1_0000 && lun < 0x100 && taskId' < 0x1_0000 && lun' < 0x100
    ensures BuildTag(SCSI_TASK, lun, taskId) == BuildTag(SCSI_TASK, lun', taskId') <==> lun == lun' && taskId == taskId'
    ensures BuildTag(SCSI_TASK, lun, taskId) == 0 <==> lun == 0 && taskId == 0
    ensures BuildTag(SCSI_TASK, lun, taskId) != LATENCY_TAG && LATENCY_TAG == 0x0100_0000
  {}

  lemma WordsShared(a: bv32, b: bv32, c: bv32, d: bv32)
    requires c < 0x1_0000 && d < 0x100
    ensures a | (b << 16) == c | (d << 16) <==> a & 0xffff == c && (b | (a >> 16)) & 0xffff == d
  {}

  lemma TagOfWords(lun: bv64, taskId: bv64)
    ensures BuildTag(SCSI_TASK, lun, taskId) == Truncate(taskId) | (Truncate(lun) << 16)
  {
    hide Truncate;
  }

  lemma TruncateSmall(x: bv64)
    ensures x < 0x1_0000 ==> Truncate(x) < 0x1_0000
    ensures x < 0x100 ==> Truncate(x) < 0x100
  {}

  /** Out of range they do not: exactly the tasks whose truncated identifier and unit overlap to the
    same bits share the tag of a given task in range, and there are such tasks. */
  lemma TagsShared(lun: bv64, taskId: bv64, lun': bv64, taskId': bv64)
    requires taskId < 0x1_0000 && lun < 0x100
    ensures BuildTag(SCSI_TASK, lun', taskId') == BuildTag(SCSI_TASK, lun, taskId) <==>
            && Truncate(taskId') & 0xffff == Truncate(taskId)
            && (Truncate(lun') | (Truncate(taskId') >> 16)) & 0xffff == Truncate(lun)
  {
    hide Truncate, BuildTag;
    TruncateSmall(taskId);
    TruncateSmall(lun);
    TagOfWords(lun, taskId);
    TagOfWords(lun', taskId');
    WordsShared(Truncate(taskId'), Truncate(lun'), Truncate(taskId), Truncate(lun));
  }

  /** A task identifier of more than 16 bits reads as a unit, and unit 256 makes the probe's tag. */
  lemma OutOfRangeTags()
    ensures BuildTag(SCSI_TASK, 0, 0x1_0000) == BuildTag(SCSI_TASK, 1, 0)
    ensures BuildTag(SCSI_TASK, 0x100, 0) == LATENCY_TAG
  {}
}
