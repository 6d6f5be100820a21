/** Starting a SCSI task, answering R2Ts, and the coverage of a whole write. */
module WriteTask {
  import opened Words
  import opened Crc32cSpec
  import opened PduHeader
  import opened PduStream
  import opened Transport
  import opened WriteTransfer

  /** The negotiated settings that decide what a write sends unasked. */
  datatype Policy = Policy(initialR2T: bool, immediateData: bool, immediateLength: u32, firstBurst: u32)

  /** The settings as activation leaves them. */
  function Activated(initialR2T: bool, immediateData: bool, maxSegment: u32, firstBurst: u32): Policy {
    Policy(initialR2T, immediateData, Min(maxSegment, firstBurst), firstBurst)
  }

  function Immediate(p: Policy, total: u32): u32 {
    if p.immediateData then Min(p.immediateLength, total) else 0
  }

  /** How far the data sent before any R2T reaches. */
  function UnsolicitedEnd(p: Policy, total: u32): u32 {
    var sent := Immediate(p, total);
    if !p.initialR2T && sent < p.firstBurst && sent < total then Min(p.firstBurst, total) else sent
  }

  /** The F bit of the command. */
  predicate CommandFinal(direction: Direction, p: Policy, total: u32) {
    direction != ToTarget || p.initialR2T || (p.immediateData && Immediate(p, total) == total)
  }

  /** With the settings of an activated connection the unsolicited data is nothing, the immediate
    data, or the first burst, by the two negotiated switches; it never exceeds the first burst. */
  lemma UnsolicitedByPolicy(initialR2T: bool, immediateData: bool, maxSegment: u32, firstBurst: u32, total: u32)
    ensures var p := Activated(initialR2T, immediateData, maxSegment, firstBurst);
            && p.immediateLength == (if maxSegment < firstBurst then maxSegment else firstBurst)
            && UnsolicitedEnd(p, total) ==
                 (if !initialR2T then (if firstBurst < total then firstBurst else total)
                  else if immediateData then (if p.immediateLength < total then p.immediateLength else total)
                  else 0)
            && UnsolicitedEnd(p, total) <= firstBurst
            && Immediate(p, total) <= UnsolicitedEnd(p, total) <= total
  {}

  function CurrentPolicy(session: Session, connection: Connection): Policy
    reads session`initialR2T, session`immediateData, session`firstBurstLength, connection`immediateDataLength
  {
    Policy(session.initialR2T, session.immediateData, connection.immediateDataLength, session.firstBurstLength)
  }

  /** The command PDU of a task, with its immediate data. */
  function CommandPdu(lun: Bytes, tag: Bytes, cdb: Bytes, attribute: bv8, direction: Direction, buffer: Bytes,
                      p: Policy, cmdSN: u32, expStatSN: u32): Pdu
    requires |tag| == 4 && |lun| == 8 && |cdb| == 16 && |buffer| < 0x1_0000_0000
  {
    var n := if direction == ToTarget then Immediate(p, |buffer|) else 0;
    var flags := CommandFlags(direction, attribute, CommandFinal(direction, p, |buffer|));
    Pdu(Stamp(CommandHeader(lun, tag, cdb, flags, |buffer|), cmdSN, expStatSN, n), buffer[..n])
  }

  lemma CommandNumbered(lun: Bytes, tag: Bytes, cdb: Bytes, flags: bv8, transferLength: u32)
    requires |lun| == 8 && |tag| == 4 && |cdb| == 16
    ensures var h := CommandHeader(lun, tag, cdb, flags, transferLength);
            h[0] == OP_SCSI_CMD && h[FLAGS] == flags && Numbered(h)
  {
    hide CommandHeader, Le32, Swap32;
    CommandLayout(lun, tag, cdb, flags, transferLength);
    CommandSlices(CommandHeader(lun, tag, cdb, flags, transferLength), lun, tag, cdb, flags, Le32(Swap32(transferLength)));
  }

  /** What the header of a SCSI command says, byte for byte: the F bit, the direction and the attribute in its
    flags, unit, tag, transfer length, command number, acknowledged number, and command block. */
  ghost predicate CommandSays(h: Header, lun: Bytes, tag: Bytes, cdb: Bytes, attribute: bv8, direction: Direction,
                              final: bool, total: u32, cmdSN: u32, expStatSN: u32) {
    && h[0] == 0x01
    && (h[1] & 0x80 != 0 <==> final)
    && (h[1] & 0x40 != 0 <==> direction == FromTarget) && (h[1] & 0x20 != 0 <==> direction == ToTarget)
    && h[1] & 0x18 == 0 && h[1] & 0x07 == attribute
    && h[8..16] == lun && h[16..20] == tag && BigEndian(h[20..24]) == total
    && BigEndian(h[24..28]) == cmdSN && BigEndian(h[28..32]) == expStatSN && h[32..] == cdb
  }

  lemma CommandFields(lun: Bytes, tag: Bytes, cdb: Bytes, attribute: bv8, direction: Direction, buffer: Bytes,
                      p: Policy, cmdSN: u32, expStatSN: u32)
    requires |tag| == 4 && |lun| == 8 && |cdb| == 16 && |buffer| < 0x1_0000_0000 && attribute <= ATTRIBUTE_BITS
    ensures CommandSays(CommandPdu(lun, tag, cdb, attribute, direction, buffer, p, cmdSN, expStatSN).header,
                        lun, tag, cdb, attribute, direction, CommandFinal(direction, p, |buffer|), |buffer|,
                        cmdSN, expStatSN)
  {
    hide Stamp, CommandHeader, CommandFlags, CommandFinal, Immediate, BigEndian;
    var n := if direction == ToTarget then Immediate(p, |buffer|) else 0;
    var final := CommandFinal(direction, p, |buffer|);
    CommandFlagBits(direction, attribute, final);
    CommandOnWire(lun, tag, cdb, CommandFlags(direction, attribute, final), |buffer|, cmdSN, expStatSN, n);
  }

  /** The Data-Out PDUs that follow a command unasked: from the immediate data to the end of the
    unsolicited data, in pieces. */
  ghost predicate Unsolicited(run: seq<Attempt>, x: Transfer, direction: Direction, p: Policy)
    requires x.Valid() && |x.buffer| < 0x1_0000_0000
  {
    if direction == ToTarget then
      var sent, end := Immediate(p, |x.buffer|), UnsolicitedEnd(p, |x.buffer|);
      Pieces(run, x, sent, end - sent) && Complete(run, x, end - sent)
    else run == []
  }

  predicate HasFinal(h: Header) { h[FLAGS] & FINAL != 0 }

  /** InitialR2T is off and either the immediate data uses up the first burst with data left, or there
    is no immediate data and nothing to send unsolicited either. */
  predicate NothingFollows(p: Policy, total: u32) {
    && !p.initialR2T
    && (if p.immediateData then p.firstBurst <= p.immediateLength < total else p.firstBurst == 0 || total == 0)
  }

  lemma CommandHasFinal(lun: Bytes, tag: Bytes, cdb: Bytes, attribute: bv8, direction: Direction, buffer: Bytes,
                        p: Policy, cmdSN: u32, expStatSN: u32)
    requires |tag| == 4 && |lun| == 8 && |cdb| == 16 && |buffer| < 0x1_0000_0000 && attribute <= ATTRIBUTE_BITS
    ensures HasFinal(CommandPdu(lun, tag, cdb, attribute, direction, buffer, p, cmdSN, expStatSN).header) <==>
            CommandFinal(direction, p, |buffer|)
  {
    hide Stamp, CommandHeader, CommandFlags, CommandFinal, Immediate;
    var n := if direction == ToTarget then Immediate(p, |buffer|) else 0;
    var flags := CommandFlags(direction, attribute, CommandFinal(direction, p, |buffer|));
    CommandFlagBits(direction, attribute, CommandFinal(direction, p, |buffer|));
    CommandNumbered(lun, tag, cdb, flags, |buffer|);
    StampedOpcode(CommandHeader(lun, tag, cdb, flags, |buffer|), cmdSN, expStatSN, n);
  }

  lemma RunNothing(run: seq<Attempt>, x: Transfer, offset: u32, length: u32)
    requires x.Valid() && Pieces(run, x, offset, length) && Complete(run, x, length)
    ensures run == [] <==> length == 0
  {
    hide IsPiece;
    StartNext(0, x.limit);
    assert run != [] ==> Start(0, x.limit) < length;
    if run == [] {
      assert AllDelivered(run);
    }
  }

  /** The F bit of a command tells whether unsolicited Data-Out follows (section 10.3.1 of RFC 3720):
    with F set none does, and with F clear some does, except exactly where NothingFollows; the last
    Data-Out of a sequence sent without errors carries F and no other does. */
  ghost predicate FinalBits(command: Header, run: seq<Attempt>, p: Policy, total: u32) {
    && (HasFinal(command) ==> run == [])
    && (!HasFinal(command) ==> (run == [] <==> NothingFollows(p, total)))
    && (AllDelivered(run) ==> forall k :: 0 <= k < |run| ==> (HasFinal(run[k].pdu.header) <==> k == |run| - 1))
  }

  /** What a task sends before any R2T has honest F bits. */
  lemma FinalBitHonest(run: seq<Attempt>, lun: Bytes, tag: Bytes, cdb: Bytes, attribute: bv8, direction: Direction,
                       buffer: Bytes, p: Policy, cmdSN: u32, x: Transfer)
    requires |tag| == 4 && |lun| == 8 && |cdb| == 16 && |buffer| < 0x1_0000_0000 && attribute <= ATTRIBUTE_BITS
    requires x.Valid() && x.buffer == buffer && Unsolicited(run, x, direction, p)
    ensures var command := CommandPdu(lun, tag, cdb, attribute, direction, buffer, p, cmdSN, x.expStatSN);
            FinalBits(command.header, run, p, |buffer|)
  {
    hide CommandPdu, Pieces, Complete, Start, AllDelivered, HasFinal;
    CommandHasFinal(lun, tag, cdb, attribute, direction, buffer, p, cmdSN, x.expStatSN);
    if direction == ToTarget {
      var sent, end := Immediate(p, |buffer|), UnsolicitedEnd(p, |buffer|);
      RunNothing(run, x, sent, end - sent);
      if AllDelivered(run) {
        forall k | 0 <= k < |run|
          ensures HasFinal(run[k].pdu.header) <==> k == |run| - 1
        {
          PieceInPlace(run, x, sent, end - sent, k);
          TileFinal(run[k].pdu, sent, x.limit, k, k == |run| - 1);
        }
      }
    }
  }

  lemma TileFinal(p: Pdu, offset: nat, limit: nat, k: nat, last: bool)
    requires Tile(p, offset, limit, k, last)
    ensures HasFinal(p.header) <==> last
  {}

  lemma NothingUnsolicited(x: Transfer, direction: Direction, p: Policy)
    requires x.Valid() && |x.buffer| < 0x1_0000_0000
    requires direction == ToTarget && !p.initialR2T ==>
               Immediate(p, |x.buffer|) >= p.firstBurst || Immediate(p, |x.buffer|) >= |x.buffer|
    ensures Unsolicited([], x, direction, p)
  {}

  /** The data sent with a command: with ImmediateData the lesser of the agreed length and the buffer. */
  ghost predicate CarriesImmediate(data: Bytes, direction: Direction, p: Policy, buffer: Bytes) {
    data == if !p.immediateData || direction != ToTarget then []
            else if p.immediateLength < |buffer| then buffer[..p.immediateLength] else buffer
  }

  lemma NothingUnasked(run: seq<Attempt>, x: Transfer, direction: Direction, p: Policy)
    requires x.Valid() && |x.buffer| < 0x1_0000_0000 && Unsolicited(run, x, direction, p)
    ensures direction != ToTarget || p.initialR2T ==> run == []
  {
    hide Pieces, Complete;
    if direction == ToTarget && p.initialR2T {
      RunNothing(run, x, Immediate(p, |x.buffer|), 0);
    }
  }

  lemma NothingFollowed(fails: nat -> bool, first: nat)
    ensures Follows([], fails, first)
  {}

  lemma RestOfFirstBurst(p: Policy, total: u32)
    requires !p.initialR2T && Immediate(p, total) < p.firstBurst && Immediate(p, total) < total
    ensures DataOutLength(ToTarget, p, total) == Min(p.firstBurst - Immediate(p, total), total - Immediate(p, total))
  {}

  lemma RestIsUnsolicited(run: seq<Attempt>, x: Transfer, p: Policy)
    requires x.Valid() && |x.buffer| < 0x1_0000_0000
    requires !p.initialR2T && Immediate(p, |x.buffer|) < p.firstBurst && Immediate(p, |x.buffer|) < |x.buffer|
    requires var rest := Min(p.firstBurst - Immediate(p, |x.buffer|), |x.buffer| - Immediate(p, |x.buffer|));
             Pieces(run, x, Immediate(p, |x.buffer|), rest) && Complete(run, x, rest)
    ensures Unsolicited(run, x, ToTarget, p)
  {
    hide Pieces, Complete;
  }

  function TransferOf(task: Task, connection: Connection): Transfer
    reads connection`maxSendDataSegmentLength, connection`expStatSN
  {
    Transfer(task.lun, task.tag, RESERVED_TAG, task.buffer, connection.maxSendDataSegmentLength, connection.expStatSN)
  }

  /** Builds and sends the command PDU with the first `dataLength` bytes as immediate data. */
  method SendCommand(session: Session, connection: Connection, task: Task, dataLength: u32, final: bool)
    returns (ghost command: Attempt)
    requires session.Valid() && connection.Valid() && task.Valid()
    requires dataLength == if task.direction == ToTarget
                           then Immediate(CurrentPolicy(session, connection), |task.buffer|) else 0
    requires final == CommandFinal(task.direction, CurrentPolicy(session, connection), |task.buffer|)
    modifies session`cmdSN, session`issued
    modifies connection`log, connection`traffic, connection.socket`sent, connection.socket`attempts
    ensures session.Valid() && connection.Valid()
    ensures session.cmdSN == Inc32(old(session.cmdSN))
    ensures session.issued == old(session.issued) + [command.pdu.header]
    ensures connection.log == old(connection.log) + [command]
    ensures command.pdu == CommandPdu(task.lun, task.tag, task.cdb, task.attribute, task.direction, task.buffer,
              CurrentPolicy(session, connection), old(session.cmdSN), connection.expStatSN)
    ensures CommandSays(command.pdu.header, task.lun, task.tag, task.cdb, task.attribute, task.direction, final,
                        |task.buffer|, old(session.cmdSN), connection.expStatSN)
    ensures command.pdu.data == task.buffer[..dataLength]
    ensures command.delivered == !connection.socket.fails(old(connection.socket.attempts))
    ensures connection.socket.attempts == old(connection.socket.attempts) + 1
  {
    hide WireBytes, StatusAcknowledged, CommandsNumbered, LengthsStamped, CommandHeader, Stamp;
    hide Numbered, NextCmdSN, CommandFlags, Inc32, CommandSays;
    CommandFields(task.lun, task.tag, task.cdb, task.attribute, task.direction, task.buffer,
                  CurrentPolicy(session, connection), session.cmdSN, connection.expStatSN);
    var flags := CommandFlags(task.direction, task.attribute, final);
    var bhs := CommandHeader(task.lun, task.tag, task.cdb, flags, |task.buffer|);
    CommandNumbered(task.lun, task.tag, task.cdb, flags, |task.buffer|);
    NumberedNext(bhs, session.cmdSN);
    ghost var pdu := NextPdu(session, connection, bhs, task.buffer[..dataLength]);
    var error := SendPDU(session, connection, bhs, task.buffer[..dataLength]);
    command := Attempt(pdu, connection.useHeaderDigest, connection.useDataDigest, !error);
  }

  /** How much unsolicited Data-Out a task sends. */
  function DataOutLength(direction: Direction, p: Policy, total: u32): u32 {
    if direction == ToTarget then UnsolicitedEnd(p, total) - Immediate(p, total) else 0
  }

  /** Unsolicited Data-Out up to the first burst, behind `dataOffset` bytes of immediate data. */
  method SendUnsolicited(session: Session, connection: Connection, task: Task, dataOffset: u32)
    returns (ghost run: seq<Attempt>)
    requires session.Valid() && connection.Valid() && task.Valid()
    requires task.direction == ToTarget ==> dataOffset == Immediate(CurrentPolicy(session, connection), |task.buffer|)
    requires LoopEnds(connection.maxSendDataSegmentLength,
                      DataOutLength(task.direction, CurrentPolicy(session, connection), |task.buffer|),
                      connection.socket.fails, connection.socket.attempts)
    modifies session`cmdSN, session`issued, task`realized
    modifies connection`log, connection`traffic, connection`dataToTransfer
    modifies connection.socket`sent, connection.socket`attempts
    ensures session.Valid() && connection.Valid() && session.cmdSN == old(session.cmdSN)
    ensures Unsolicited(run, TransferOf(task, connection), task.direction, CurrentPolicy(session, connection))
    ensures Follows(run, connection.socket.fails, old(connection.socket.attempts))
    ensures connection.socket.attempts == old(connection.socket.attempts) + |run|
    ensures session.issued == old(session.issued) + Headers(run)
    ensures connection.log == old(connection.log) + run
    ensures task.realized == old(task.realized) + Amount(run)
    ensures connection.dataToTransfer == Minus64(old(connection.dataToTransfer), Amount(run))
  {
    hide WireBytes, StatusAcknowledged, CommandsNumbered, LengthsStamped, Headers, Amount, Minus64;
    hide AllDelivered, Pieces, Complete, Follows, LoopEnds, Unsolicited, DataOutLength;
    var transferSize: u32 := |task.buffer|;
    run := [];
    NothingSent(TransferOf(task, connection), 0);
    if task.direction == ToTarget && !session.initialR2T
       && dataOffset < session.firstBurstLength && dataOffset < transferSize {
      var rest := Min(session.firstBurstLength - dataOffset, transferSize - dataOffset);
      RestOfFirstBurst(CurrentPolicy(session, connection), transferSize);
      run := ProcessDataOutForTask(session, connection, task, dataOffset, rest, task.lun, RESERVED_TAG);
      RestIsUnsolicited(run, TransferOf(task, connection), CurrentPolicy(session, connection));
    } else {
      NothingUnsolicited(TransferOf(task, connection), task.direction, CurrentPolicy(session, connection));
      NothingFollowed(connection.socket.fails, connection.socket.attempts);
    }
  }

  /** Sends the command PDU, with immediate data when allowed, then the unsolicited Data-Out.  The
    immediate data is accounted whether or not its send succeeded. */
  method BeginTask(session: Session, connection: Connection, task: Task)
    returns (ghost command: Attempt, ghost run: seq<Attempt>)
    requires session.Valid() && connection.Valid() && task.Valid()
    requires LoopEnds(connection.maxSendDataSegmentLength,
                      DataOutLength(task.direction, CurrentPolicy(session, connection), |task.buffer|),
                      connection.socket.fails, connection.socket.attempts + 1)
    modifies session`cmdSN, session`issued, task`realized
    modifies connection`log, connection`traffic, connection`dataToTransfer
    modifies connection.socket`sent, connection.socket`attempts
    ensures session.Valid() && connection.Valid()
    ensures session.cmdSN == Inc32(old(session.cmdSN))
    ensures session.issued == old(session.issued) + [command.pdu.header] + Headers(run)
    ensures connection.log == old(connection.log) + [command] + run
    ensures command.pdu == CommandPdu(task.lun, task.tag, task.cdb, task.attribute, task.direction, task.buffer,
              CurrentPolicy(session, connection), old(session.cmdSN), connection.expStatSN)
    ensures CommandSays(command.pdu.header, task.lun, task.tag, task.cdb, task.attribute, task.direction,
              CommandFinal(task.direction, CurrentPolicy(session, connection), |task.buffer|), |task.buffer|,
              old(session.cmdSN), connection.expStatSN)
    ensures session.initialR2T || task.direction != ToTarget ==> run == []
    ensures CarriesImmediate(command.pdu.data, task.direction, CurrentPolicy(session, connection), task.buffer)
    ensures !session.immediateData ==> command.pdu.data == []
    ensures Unsolicited(run, TransferOf(task, connection), task.direction, CurrentPolicy(session, connection))
    ensures FinalBits(command.pdu.header, run, CurrentPolicy(session, connection), |task.buffer|)
    ensures command.delivered == !connection.socket.fails(old(connection.socket.attempts))
    ensures Follows(run, connection.socket.fails, old(connection.socket.attempts) + 1)
    ensures connection.socket.attempts == old(connection.socket.attempts) + 1 + |run|
    ensures task.realized == old(task.realized) + |command.pdu.data| + Amount(run)
    ensures connection.dataToTransfer ==
            Minus64(old(connection.dataToTransfer), |command.pdu.data| + Amount(run))
    ensures var sent := |command.pdu.data| + Amount(run);
            old(connection.dataToTransfer) >= sent ==> connection.dataToTransfer == old(connection.dataToTransfer) - sent
  {
    hide WireBytes, StatusAcknowledged, CommandsNumbered, LengthsStamped, Headers, Amount, CommandPdu, Inc32, Minus64;
    hide FinalBits, Follows, LoopEnds, Unsolicited, DataOutLength, CommandSays;
    var transferSize: u32 := |task.buffer|;
    var write := task.direction == ToTarget;
    var dataLength: u32 := 0;
    if write && session.immediateData {
      dataLength := Min(connection.immediateDataLength, transferSize);
    }
    var final := !write || session.initialR2T || (session.immediateData && dataLength == transferSize);
    command := SendCommand(session, connection, task, dataLength, final);
    task.realized := task.realized + dataLength;
    connection.dataToTransfer := Minus64(connection.dataToTransfer, dataLength);
    run := SendUnsolicited(session, connection, task, dataLength);
    MinusTwice(old(connection.dataToTransfer), dataLength, Amount(run));
    CountersExact(old(connection.dataToTransfer), dataLength + Amount(run));
    NothingUnasked(run, TransferOf(task, connection), task.direction, CurrentPolicy(session, connection));
    FinalBitHonest(run, task.lun, task.tag, task.cdb, task.attribute, task.direction, task.buffer,
                   CurrentPolicy(session, connection), old(session.cmdSN), TransferOf(task, connection));
  }

  /** What an R2T asks for, and the unit and transfer tag its answer carries. */
  datatype R2T = R2T(lun: Bytes, offset: u32, length: u32, transferTag: Bytes) {
    ghost predicate Valid() { |lun| == 8 && |transferTag| == 4 }
  }

  function AsR2T(h: Header): (r: R2T)
    ensures r.Valid()
  {
    R2T(Field(h, LUN, 8), Word(h, BUFFER_OFFSET), Word(h, DESIRED_LENGTH), Field(h, TRANSFER_TAG, 4))
  }

  /** Where an R2T says what it asks for, byte for byte. */
  lemma R2TOnWire(h: Header)
    ensures AsR2T(h) == R2T(h[8..16], BigEndian(h[40..44]), BigEndian(h[44..48]), h[20..24])
    ensures ForTask(h, h[16..20]) && forall tag: Bytes :: ForTask(h, tag) ==> tag == h[16..20]
  {
    hide Word, BigEndian;
    WordIsBigEndian(h, BUFFER_OFFSET);
    WordIsBigEndian(h, DESIRED_LENGTH);
  }

  predicate ForTask(h: Header, tag: Bytes) { Field(h, TASK_TAG, 4) == tag }

  /** `run` answers the R2T, completely or up to a failed send. */
  ghost predicate Replied(run: seq<Attempt>, x: Transfer, r: R2T)
    requires x.Valid()
  {
    Pieces(run, x, r.offset, r.length) && Complete(run, x, r.length)
  }

  /** The run answers an R2T that names the task, by the bytes of its header, with its unit and transfer tag. */
  ghost predicate AnswersR2T(run: seq<Attempt>, h: Header, tag: Bytes, buffer: Bytes, limit: u32, expStatSN: u32)
    requires |tag| == 4
  {
    if h[16..20] == tag then
      var x := Transfer(h[8..16], tag, h[20..24], buffer, limit, expStatSN);
      Pieces(run, x, BigEndian(h[40..44]), BigEndian(h[44..48])) && Complete(run, x, BigEndian(h[44..48]))
    else run == []
  }

  lemma AnswerOnWire(h: Header, tag: Bytes, buffer: Bytes, limit: u32, expStatSN: u32)
    requires |tag| == 4
    ensures var r := AsR2T(h);
            forall run {:trigger AnswersR2T(run, h, tag, buffer, limit, expStatSN)} ::
              AnswersR2T(run, h, tag, buffer, limit, expStatSN) <==>
              if ForTask(h, tag) then Replied(run, Transfer(r.lun, tag, r.transferTag, buffer, limit, expStatSN), r)
              else run == []
  {
    hide Word, BigEndian, Pieces, Complete, AsR2T;
    R2TOnWire(h);
  }

  /** Sends what an R2T asks for, if it names the task. */
  method ProcessR2T(session: Session, connection: Connection, task: Task, r2t: Header)
    returns (ghost run: seq<Attempt>)
    requires session.Valid() && connection.Valid() && task.Valid()
    requires ForTask(r2t, task.tag) ==>
               LoopEnds(connection.maxSendDataSegmentLength, AsR2T(r2t).length, connection.socket.fails,
                        connection.socket.attempts)
    modifies session`cmdSN, session`issued, task`realized
    modifies connection`log, connection`traffic, connection`dataToTransfer
    modifies connection.socket`sent, connection.socket`attempts
    ensures session.Valid() && connection.Valid() && session.cmdSN == old(session.cmdSN)
    ensures var r := AsR2T(r2t);
            if ForTask(r2t, task.tag)
            then Replied(run, Transfer(r.lun, task.tag, r.transferTag, task.buffer,
                                       connection.maxSendDataSegmentLength, connection.expStatSN), r)
            else run == []
    ensures AnswersR2T(run, r2t, task.tag, task.buffer, connection.maxSendDataSegmentLength, connection.expStatSN)
    ensures Follows(run, connection.socket.fails, old(connection.socket.attempts))
    ensures connection.socket.attempts == old(connection.socket.attempts) + |run|
    ensures connection.log == old(connection.log) + run
    ensures task.realized == old(task.realized) + Amount(run)
    ensures connection.dataToTransfer == Minus64(old(connection.dataToTransfer), Amount(run))
    ensures old(connection.dataToTransfer) >= Amount(run) ==>
              connection.dataToTransfer == old(connection.dataToTransfer) - Amount(run)
  {
    hide WireBytes, StatusAcknowledged, CommandsNumbered, LengthsStamped, Headers, IsPiece, Word, Start, Minus64;
    hide AnswersR2T;
    AnswerOnWire(r2t, task.tag, task.buffer, connection.maxSendDataSegmentLength, connection.expStatSN);
    if Field(r2t, TASK_TAG, 4) != task.tag {
      NothingMinus(connection.dataToTransfer);
      NothingFollowed(connection.socket.fails, connection.socket.attempts);
      return [];
    }
    hide Amount;
    run := ProcessDataOutForTask(session, connection, task, Word(r2t, BUFFER_OFFSET), Word(r2t, DESIRED_LENGTH),
                                 Field(r2t, LUN, 8), Field(r2t, TRANSFER_TAG, 4));
  }

  lemma NothingMinus(d: u64)
    ensures Minus64(d, 0) == d && Amount([]) == 0
  {}

  // ----- Coverage of the buffer

  /** The buffer position of a PDU's data. */
  function From(p: Pdu): nat {
    if p.header[0] == OP_SCSI_CMD then 0 else Word(p.header, BUFFER_OFFSET)
  }

  predicate Hits(a: Attempt, i: nat) {
    a.delivered && From(a.pdu) <= i < From(a.pdu) + |a.pdu.data|
  }

  /** How many delivered PDUs carry buffer byte `i`. */
  function Covers(log: seq<Attempt>, i: nat): nat
    decreases |log|
  {
    if log == [] then 0 else Covers(log[..|log| - 1], i) + if Hits(log[|log| - 1], i) then 1 else 0
  }

  /** The data is what the buffer holds at its place, as far as the buffer reaches. */
  ghost predicate Faithful(p: Pdu, buffer: Bytes) { Carries(p.data, buffer, From(p), |p.data|) }

  ghost predicate AllFaithful(log: seq<Attempt>, buffer: Bytes) {
    forall a :: a in log ==> Faithful(a.pdu, buffer)
  }

  lemma {:induction false} CoversConcat(a: seq<Attempt>, b: seq<Attempt>, i: nat)
    ensures Covers(a + b, i) == Covers(a, i) + Covers(b, i)
    decreases |b|
  {
    hide Hits;
    if b == [] {
      assert a + b == a;
    } else {
      assert (a + b)[..|a + b| - 1] == a + b[..|b| - 1];
      CoversConcat(a, b[..|b| - 1], i);
    }
  }

  lemma {:induction false} AmountConcat(a: seq<Attempt>, b: seq<Attempt>)
    ensures Amount(a + b) == Amount(a) + Amount(b)
    decreases |b|
  {
    if b == [] {
      assert a + b == a;
    } else {
      assert (a + b)[..|a + b| - 1] == a + b[..|b| - 1];
      AmountConcat(a, b[..|b| - 1]);
    }
  }

  lemma PiecePlace(p: Pdu, x: Transfer, offset: u32, length: u32, k: nat)
    requires x.Valid() && Start(k, x.limit) < length
    requires IsPiece(p, x, offset, length, k)
    requires offset + length <= 0x1_0000_0000
    ensures From(p) == offset + Start(k, x.limit) && |p.data| == PieceLength(k, x.limit, length)
    ensures Faithful(p, x.buffer)
  {
    hide Start, DataOutHeader, Stamp, Word, Carries;
    var from, n := offset + Start(k, x.limit), PieceLength(k, x.limit, length);
    CarriesLength(p.data, x.buffer, Wrap32(from), n);
    DataOutFields(x, from, Wrap32(k), length - Start(k, x.limit) <= x.limit, 0, n);
    assert Wrap32(from) == from;
  }

  /** A delivered run covers every byte of its interval once and no other, each with what the buffer
    holds there. */
  lemma {:induction false} RunCovers(run: seq<Attempt>, x: Transfer, offset: u32, length: u32, i: nat)
    requires x.Valid() && Pieces(run, x, offset, length) && AllDelivered(run)
    requires offset + length <= 0x1_0000_0000
    ensures Covers(run, i) == if offset <= i < offset + SentBy(|run|, x.limit, length) then 1 else 0
    ensures AllFaithful(run, x.buffer)
    decreases |run|
  {
    hide Start, SentBy, PieceLength, IsPiece, From, Faithful;
    SentNext(|run|, x.limit, length);
    if run != [] {
      var k := |run| - 1;
      assert run == run[..k] + [run[k]];
      PiecesPrefix(run, x, offset, length);
      RunCovers(run[..k], x, offset, length, i);
      SentNext(k, x.limit, length);
      PiecePlace(run[k].pdu, x, offset, length, k);
    }
  }

  // ----- A whole write

  function Asked(rs: seq<R2T>, i: nat): nat
    decreases |rs|
  {
    if rs == [] then 0
    else Asked(rs[1..], i) + if rs[0].offset <= i < rs[0].offset + rs[0].length then 1 else 0
  }

  function TotalAsked(rs: seq<R2T>): nat
    decreases |rs|
  {
    if rs == [] then 0 else rs[0].length + TotalAsked(rs[1..])
  }

  function Flatten(runs: seq<seq<Attempt>>): seq<Attempt>
    decreases |runs|
  {
    if runs == [] then [] else runs[0] + Flatten(runs[1..])
  }

  /** The R2Ts ask, in any order, for every one of `total` bytes from `begin` on once, and for none
    before. */
  ghost predicate Partition(rs: seq<R2T>, begin: nat, total: nat) {
    forall i: nat {:trigger Asked(rs, i)} :: i < total ==> Asked(rs, i) == if i < begin then 0 else 1
  }

  /** No R2T reaches past the buffer. */
  ghost predicate InBounds(rs: seq<R2T>, total: nat) {
    forall r :: r in rs ==> r.length == 0 || r.offset + r.length <= total
  }

  /** No R2T asks for bytes past the last 32-bit offset. */
  ghost predicate Addressable(rs: seq<R2T>) {
    forall r :: r in rs ==> r.offset + r.length <= 0x1_0000_0000
  }

  /** `runs` answers the R2Ts one by one without a failed send, `exps` being what they acknowledge. */
  ghost predicate Answers(runs: seq<seq<Attempt>>, rs: seq<R2T>, tag: Bytes, buffer: Bytes, limit: u32, exps: seq<u32>)
    requires |tag| == 4
  {
    && |runs| == |rs| == |exps|
    && forall j :: 0 <= j < |rs| ==>
         rs[j].Valid() && Answered(runs[j], Transfer(rs[j].lun, tag, rs[j].transferTag, buffer, limit, exps[j]), rs[j])
  }

  ghost predicate Answered(run: seq<Attempt>, x: Transfer, r: R2T)
    requires x.Valid()
  {
    Replied(run, x, r) && AllDelivered(run)
  }

  lemma {:induction false} AnswersCover(runs: seq<seq<Attempt>>, rs: seq<R2T>, tag: Bytes, buffer: Bytes,
                                        limit: u32, exps: seq<u32>, i: nat)
    requires |tag| == 4 && Answers(runs, rs, tag, buffer, limit, exps) && Addressable(rs)
    ensures Covers(Flatten(runs), i) == Asked(rs, i)
    ensures Amount(Flatten(runs)) == TotalAsked(rs)
    ensures AllFaithful(Flatten(runs), buffer)
    decreases |rs|
  {
    hide Pieces, Complete, AllDelivered, Covers, Amount, Start, SentBy, Faithful;
    if rs == [] {
      EmptyLog(i);
    } else {
      var x := Transfer(rs[0].lun, tag, rs[0].transferTag, buffer, limit, exps[0]);
      AnswersTail(runs, rs, tag, buffer, limit, exps);
      AnswersCover(runs[1..], rs[1..], tag, buffer, limit, exps[1..], i);
      assert rs[0] in rs && Answered(runs[0], x, rs[0]);
      RunCovers(runs[0], x, rs[0].offset, rs[0].length, i);
      CompleteSends(runs[0], x, rs[0].offset, rs[0].length);
      CoversConcat(runs[0], Flatten(runs[1..]), i);
      AmountConcat(runs[0], Flatten(runs[1..]));
    }
  }

  lemma EmptyLog(i: nat)
    ensures Covers([], i) == 0 && Amount([]) == 0
  {}

  lemma CompleteSends(run: seq<Attempt>, x: Transfer, offset: u32, length: u32)
    requires x.Valid() && Pieces(run, x, offset, length) && Complete(run, x, length) && AllDelivered(run)
    ensures SentBy(|run|, x.limit, length) == length && Amount(run) == length
  {
    hide Start, Amount, Pieces, SentBy;
    SentBounded(|run|, x.limit, length);
    AmountIsPrefix(run, x, offset, length);
  }

  lemma AnswersTail(runs: seq<seq<Attempt>>, rs: seq<R2T>, tag: Bytes, buffer: Bytes, limit: u32, exps: seq<u32>)
    requires |tag| == 4 && rs != [] && Answers(runs, rs, tag, buffer, limit, exps)
    ensures Answers(runs[1..], rs[1..], tag, buffer, limit, exps[1..])
  {
    hide Answered;
    forall j | 0 <= j < |rs[1..]|
      ensures rs[1..][j].Valid()
      ensures Answered(runs[1..][j],
                       Transfer(rs[1..][j].lun, tag, rs[1..][j].transferTag, buffer, limit, exps[1..][j]), rs[1..][j])
    {
      assert rs[1..][j] == rs[j + 1] && runs[1..][j] == runs[j + 1] && exps[1..][j] == exps[j + 1];
    }
  }

  /** The sum of the coverage over the buffer. */
  function Coverage(rs: seq<R2T>, total: nat): nat
    decreases total
  {
    if total == 0 then 0 else Coverage(rs, total - 1) + Asked(rs, total - 1)
  }

  lemma {:induction false} CoverageSplits(rs: seq<R2T>, total: nat)
    requires rs != []
    ensures Coverage(rs, total) == Coverage(rs[1..], total) + Overlap(rs[0], total)
    decreases total
  {
    if total > 0 {
      CoverageSplits(rs, total - 1);
    }
  }

  function Overlap(r: R2T, total: nat): nat {
    if total <= r.offset then 0 else if total <= r.offset + r.length then total - r.offset else r.length
  }

  lemma {:induction false} NoCoverage(total: nat)
    ensures Coverage([], total) == 0
    decreases total
  {
    if total > 0 {
      NoCoverage(total - 1);
    }
  }

  lemma OverlapWhole(r: R2T, total: nat)
    ensures Overlap(r, total) <= r.length
    ensures Overlap(r, total) == r.length <==> r.length == 0 || r.offset + r.length <= total
  {}

  /** Counting what is asked of the buffer by position gives the total of the R2Ts if and only if none
    reaches past it, and less otherwise. */
  lemma {:induction false} CoverageIsTotal(rs: seq<R2T>, total: nat)
    ensures Coverage(rs, total) <= TotalAsked(rs)
    ensures Coverage(rs, total) == TotalAsked(rs) <==> InBounds(rs, total)
    decreases |rs|
  {
    if rs == [] {
      NoCoverage(total);
    } else {
      CoverageSplits(rs, total);
      CoverageIsTotal(rs[1..], total);
      OverlapWhole(rs[0], total);
      assert rs[0] in rs && forall r :: r in rs <==> r == rs[0] || r in rs[1..];
    }
  }

  lemma {:induction false} CoverageOfPartition(rs: seq<R2T>, begin: nat, total: nat, n: nat)
    requires Partition(rs, begin, total) && n <= total
    ensures Coverage(rs, n) == if n <= begin then 0 else n - begin
    decreases n
  {
    hide Asked;
    if n > 0 {
      CoverageOfPartition(rs, begin, total, n - 1);
      assert Asked(rs, n - 1) == if n - 1 < begin then 0 else 1;
    }
  }

  lemma CommandPlace(lun: Bytes, tag: Bytes, cdb: Bytes, attribute: bv8, buffer: Bytes, p: Policy,
                     cmdSN: u32, expStatSN: u32)
    requires |tag| == 4 && |lun| == 8 && |cdb| == 16 && |buffer| < 0x1_0000_0000
    ensures var c := CommandPdu(lun, tag, cdb, attribute, ToTarget, buffer, p, cmdSN, expStatSN);
            From(c) == 0 && c.data == buffer[..Immediate(p, |buffer|)] && Faithful(c, buffer)
  {
    hide Stamp, CommandHeader, Word, CommandFlags;
    var n := Immediate(p, |buffer|);
    var flags := CommandFlags(ToTarget, attribute, CommandFinal(ToTarget, p, |buffer|));
    CommandNumbered(lun, tag, cdb, flags, |buffer|);
    StampedOpcode(CommandHeader(lun, tag, cdb, flags, |buffer|), cmdSN, expStatSN, n);
  }

  /** The PDUs of a write: the command, its unsolicited Data-Out and the answers to its R2Ts, sent
    without failing. */
  ghost predicate WriteSent(command: Attempt, run: seq<Attempt>, runs: seq<seq<Attempt>>, rs: seq<R2T>, w: Write,
                            exps: seq<u32>)
    requires w.Valid()
  {
    && command.delivered && AllDelivered(run)
    && command.pdu == CommandPdu(w.lun, w.tag, w.cdb, w.attribute, ToTarget, w.buffer, w.policy, w.cmdSN, w.expStatSN)
    && Unsolicited(run, Transfer(w.lun, w.tag, RESERVED_TAG, w.buffer, w.limit, w.expStatSN), ToTarget, w.policy)
    && Answers(runs, rs, w.tag, w.buffer, w.limit, exps)
  }

  /** A write command, its data, and the settings and numbers it starts with. */
  datatype Write = Write(lun: Bytes, tag: Bytes, cdb: Bytes, attribute: bv8, buffer: Bytes,
                         policy: Policy, limit: u32, cmdSN: u32, expStatSN: u32) {
    ghost predicate Valid() {
      |tag| == 4 && |lun| == 8 && |cdb| == 16 && |buffer| < 0x1_0000_0000
    }

    function End(): (e: u32)
      requires |buffer| < 0x1_0000_0000
      ensures e <= |buffer|
    {
      UnsolicitedEnd(policy, |buffer|)
    }
  }

  /** The data sent before any R2T is the buffer's up to the unsolicited end, in order. */
  ghost predicate SentUnasked(command: Attempt, run: seq<Attempt>, w: Write)
    requires w.Valid()
  {
    command.pdu.data + Payload(run) == w.buffer[..w.End()]
  }

  /** Without failed sends, the PDUs of a write carry each byte once for the unsolicited part and once
    for every R2T that asks for it, each with what the buffer holds there, and the bytes accounted
    are those carried. */
  lemma WriteCoverage(command: Attempt, run: seq<Attempt>, runs: seq<seq<Attempt>>, rs: seq<R2T>, w: Write,
                      exps: seq<u32>, i: nat)
    requires w.Valid() && WriteSent(command, run, runs, rs, w, exps) && Addressable(rs)
    ensures Covers([command] + run + Flatten(runs), i) == (if i < w.End() then 1 else 0) + Asked(rs, i)
    ensures AllFaithful([command] + run + Flatten(runs), w.buffer)
    ensures SentUnasked(command, run, w)
    ensures |command.pdu.data| + Amount(run) + Amount(Flatten(runs)) == w.End() + TotalAsked(rs)
  {
    hide Pieces, Complete, AllDelivered, Covers, Amount, Start, SentBy, CommandPdu, From, Faithful, Answers, Asked;
    hide Payload;
    var sent, end := Immediate(w.policy, |w.buffer|), w.End();
    var x := Transfer(w.lun, w.tag, RESERVED_TAG, w.buffer, w.limit, w.expStatSN);
    CommandPlace(w.lun, w.tag, w.cdb, w.attribute, w.buffer, w.policy, w.cmdSN, w.expStatSN);
    RunCovers(run, x, sent, end - sent, i);
    CompleteSends(run, x, sent, end - sent);
    PayloadIsSlice(run, x, sent, end - sent);
    assert w.buffer[..sent] + w.buffer[sent..end] == w.buffer[..end];
    AnswersCover(runs, rs, w.tag, w.buffer, w.limit, exps, i);
    CoversConcat([command] + run, Flatten(runs), i);
    CoversConcat([command], run, i);
    SingleCover(command, i);
  }

  /** Without failed sends: the bytes sent before any R2T are exactly the buffer's up to the unsolicited
    end, in order; every PDU carries what the buffer holds at its place; every byte is sent exactly
    once if and only if the R2Ts ask, in any order, for what the unsolicited data left over and for
    nothing before; and then |buffer| bytes are accounted if and only if no R2T reaches past the
    buffer, and more otherwise. */
  lemma WholeWrite(command: Attempt, run: seq<Attempt>, runs: seq<seq<Attempt>>, rs: seq<R2T>, w: Write,
                   exps: seq<u32>)
    requires w.Valid() && WriteSent(command, run, runs, rs, w, exps) && Addressable(rs)
    ensures SentUnasked(command, run, w)
    ensures AllFaithful([command] + run + Flatten(runs), w.buffer)
    ensures SentOnce([command] + run + Flatten(runs), |w.buffer|) <==> Partition(rs, w.End(), |w.buffer|)
    ensures Partition(rs, w.End(), |w.buffer|) ==>
              var amount := |command.pdu.data| + Amount(run) + Amount(Flatten(runs));
              amount >= |w.buffer| && (amount == |w.buffer| <==> InBounds(rs, |w.buffer|))
  {
    hide Covers, Amount, WriteSent, Asked, Payload, AllFaithful, InBounds, Addressable;
    var log := [command] + run + Flatten(runs);
    forall i: nat
      ensures Covers(log, i) == (if i < w.End() then 1 else 0) + Asked(rs, i)
    {
      WriteCoverage(command, run, runs, rs, w, exps, i);
    }
    WriteCoverage(command, run, runs, rs, w, exps, 0);
    if Partition(rs, w.End(), |w.buffer|) {
      CoverageIsTotal(rs, |w.buffer|);
      CoverageOfPartition(rs, w.End(), |w.buffer|, |w.buffer|);
    }
    forall i: nat | i < |w.buffer|
      ensures Covers(log, i) == 1 <==> Asked(rs, i) == if i < w.End() then 0 else 1
    {
    }
  }

  /** Delivered PDUs carry each of the first `total` bytes exactly once. */
  ghost predicate SentOnce(log: seq<Attempt>, total: nat) {
    forall i: nat {:trigger Covers(log, i)} :: i < total ==> Covers(log, i) == 1
  }

  lemma SingleCover(a: Attempt, i: nat)
    ensures Covers([a], i) == if Hits(a, i) then 1 else 0
  {
    hide Hits;
    assert [a][..0] == [];
    assert Covers([], i) == 0;
  }

  // ----- Performing a whole write

  predicate IsR2TFor(h: Header, tag: Bytes) { h[0] == OP_R2T && ForTask(h, tag) }

  /** What the R2Ts for a task ask for, among the PDUs that come in. */
  function Asks(ps: seq<Pdu>, tag: Bytes): seq<R2T>
    decreases |ps|
  {
    if ps == [] then []
    else (if IsR2TFor(ps[0].header, tag) then [AsR2T(ps[0].header)] else []) + Asks(ps[1..], tag)
  }

  lemma AsksNext(ps: seq<Pdu>, tag: Bytes, j: nat)
    requires j < |ps|
    ensures Asks(ps[j..], tag) ==
            (if IsR2TFor(ps[j].header, tag) then [AsR2T(ps[j].header)] else []) + Asks(ps[j + 1..], tag)
    ensures ps[j..] != [] && ps[j..][0] == ps[j] && ps[j..][1..] == ps[j + 1..]
  {
    hide AsR2T, IsR2TFor;
    assert ps[j..][0] == ps[j] && ps[j..][1..] == ps[j + 1..];
  }

  /** The numbers when all these PDUs have come in. */
  function NumbersBehind(ps: seq<Pdu>, n: Window): Window
    decreases |ps|
  {
    if ps == [] then n else NumbersBehind(ps[1..], NextNumbers(ps[0].header, n))
  }

  /** What the answers to the R2Ts for a task acknowledge: all that has come in up to the R2T. */
  function Acknowledged(ps: seq<Pdu>, tag: Bytes, n: Window): seq<u32>
    decreases |ps|
  {
    if ps == [] then []
    else
      var m := NextNumbers(ps[0].header, n);
      (if IsR2TFor(ps[0].header, tag) then [m.expStatSN] else []) + Acknowledged(ps[1..], tag, m)
  }

  lemma NumbersNext(ps: seq<Pdu>, tag: Bytes, j: nat, n: Window)
    requires j < |ps|
    ensures var m := NextNumbers(ps[j].header, n);
            && NumbersBehind(ps[j..], n) == NumbersBehind(ps[j + 1..], m)
            && Acknowledged(ps[j..], tag, n) ==
               (if IsR2TFor(ps[j].header, tag) then [m.expStatSN] else []) + Acknowledged(ps[j + 1..], tag, m)
  {
    hide IsR2TFor, NextNumbers;
    assert ps[j..][0] == ps[j] && ps[j..][1..] == ps[j + 1..];
  }

  lemma NumbersDone(ps: seq<Pdu>, tag: Bytes, n: Window)
    ensures ps[|ps|..] == [] && NumbersBehind([], n) == n && Acknowledged([], tag, n) == []
  {}

  /** `runs` holds the answers to the R2Ts, complete or up to a failed send. */
  ghost predicate Replies(runs: seq<seq<Attempt>>, rs: seq<R2T>, w: Write, exps: seq<u32>)
    requires w.Valid()
  {
    && |runs| == |rs| == |exps|
    && forall j :: 0 <= j < |rs| ==>
         && rs[j].Valid()
         && Replied(runs[j], Transfer(rs[j].lun, w.tag, rs[j].transferTag, w.buffer, w.limit, exps[j]), rs[j])
  }

  lemma RepliesNext(runs: seq<seq<Attempt>>, rs: seq<R2T>, w: Write, exps: seq<u32>, run: seq<Attempt>, r: R2T, e: u32)
    requires w.Valid() && Replies(runs, rs, w, exps) && r.Valid()
    requires Replied(run, Transfer(r.lun, w.tag, r.transferTag, w.buffer, w.limit, e), r)
    ensures Replies(runs + [run], rs + [r], w, exps + [e])
  {
    hide Replied;
  }

  lemma {:induction false} FlattenNext(runs: seq<seq<Attempt>>, run: seq<Attempt>)
    ensures Flatten(runs + [run]) == Flatten(runs) + run
    decreases |runs|
  {
    if runs == [] {
      assert (runs + [run])[1..] == [];
    } else {
      assert (runs + [run])[1..] == runs[1..] + [run];
      FlattenNext(runs[1..], run);
    }
  }

  lemma {:induction false} DeliveredInFlatten(runs: seq<seq<Attempt>>, j: nat)
    requires AllDelivered(Flatten(runs)) && j < |runs|
    ensures AllDelivered(runs[j])
    decreases |runs|
  {
    var rest := Flatten(runs[1..]);
    forall k | 0 <= k < |runs[0]|
      ensures runs[0][k].delivered
    {
      assert Flatten(runs)[k] == runs[0][k];
    }
    forall k | 0 <= k < |rest|
      ensures rest[k].delivered
    {
      assert Flatten(runs)[|runs[0]| + k] == rest[k];
    }
    if j > 0 {
      DeliveredInFlatten(runs[1..], j - 1);
    }
  }

  lemma DeliveredApart(command: Attempt, run: seq<Attempt>, rest: seq<Attempt>)
    requires AllDelivered([command] + run + rest)
    ensures command.delivered && AllDelivered(run) && AllDelivered(rest)
  {
    var log := [command] + run + rest;
    assert log[0] == command;
    assert forall k :: 0 <= k < |run| ==> log[1 + k] == run[k];
    assert forall k :: 0 <= k < |rest| ==> log[1 + |run| + k] == rest[k];
  }

  /** The command and its unsolicited Data-Out are those of the write. */
  ghost predicate Begun(command: Attempt, run: seq<Attempt>, w: Write)
    requires w.Valid()
  {
    && command.pdu == CommandPdu(w.lun, w.tag, w.cdb, w.attribute, ToTarget, w.buffer, w.policy, w.cmdSN, w.expStatSN)
    && Unsolicited(run, Transfer(w.lun, w.tag, RESERVED_TAG, w.buffer, w.limit, w.expStatSN), ToTarget, w.policy)
  }

  lemma RepliesDelivered(command: Attempt, run: seq<Attempt>, runs: seq<seq<Attempt>>, rs: seq<R2T>, w: Write,
                         exps: seq<u32>)
    requires w.Valid() && Begun(command, run, w) && Replies(runs, rs, w, exps)
    requires AllDelivered([command] + run + Flatten(runs))
    ensures WriteSent(command, run, runs, rs, w, exps)
  {
    hide Replied, Unsolicited, CommandPdu, AllDelivered, Flatten;
    DeliveredApart(command, run, Flatten(runs));
    forall j | 0 <= j < |runs|
      ensures AllDelivered(runs[j])
    {
      DeliveredInFlatten(runs, j);
    }
  }

  /** What the buffer's bytes and the counters have come to when no send failed: the whole buffer is
    sent once exactly if the R2Ts partition the rest of it, and then, unless an R2T reaches past it,
    dataToTransfer has fallen by its length, to what it was if the submission has raised it by that. */
  ghost predicate Fulfilled(command: Attempt, run: seq<Attempt>, runs: seq<seq<Attempt>>, rs: seq<R2T>, w: Write,
                            before: u64, after: u64)
    requires w.Valid()
  {
    var log := [command] + run + Flatten(runs);
    && SentUnasked(command, run, w) && AllFaithful(log, w.buffer)
    && (SentOnce(log, |w.buffer|) <==> Partition(rs, w.End(), |w.buffer|))
    && (Partition(rs, w.End(), |w.buffer|) && InBounds(rs, |w.buffer|) ==>
          && (|w.buffer| <= before ==> after == before - |w.buffer|)
          && forall start: u64 {:trigger Plus64(start, |w.buffer|)} ::
               before == Plus64(start, |w.buffer|) ==> after == start)
  }

  lemma WriteFulfils(command: Attempt, run: seq<Attempt>, runs: seq<seq<Attempt>>, rs: seq<R2T>, w: Write,
                     exps: seq<u32>, before: u64, after: u64)
    requires w.Valid() && Begun(command, run, w) && Replies(runs, rs, w, exps)
    requires after == Minus64(Minus64(before, |command.pdu.data| + Amount(run)), Amount(Flatten(runs)))
    ensures var sent := |command.pdu.data| + Amount(run) + Amount(Flatten(runs));
            after == Minus64(before, sent) && (before >= sent ==> after == before - sent)
    ensures AllDelivered([command] + run + Flatten(runs)) && Addressable(rs) ==>
              Fulfilled(command, run, runs, rs, w, before, after)
  {
    hide Begun, Replies, AllDelivered, WriteSent, Amount, SentOnce, Partition, InBounds, Addressable, Minus64;
    hide AllFaithful, SentUnasked, Flatten;
    MinusTwice(before, |command.pdu.data| + Amount(run), Amount(Flatten(runs)));
    CountersExact(before, |command.pdu.data| + Amount(run) + Amount(Flatten(runs)));
    if AllDelivered([command] + run + Flatten(runs)) && Addressable(rs) {
      RepliesDelivered(command, run, runs, rs, w, exps);
      WholeWrite(command, run, runs, rs, w, exps);
      CountersExact(before, |w.buffer|);
      forall start: u64
        ensures Minus64(Plus64(start, |w.buffer|), |w.buffer|) == start
      {
        CountersExact(start, |w.buffer|);
      }
    }
  }

  function WriteOf(session: Session, connection: Connection, task: Task): Write
    reads session`cmdSN, session`initialR2T, session`immediateData, session`firstBurstLength
    reads connection`immediateDataLength, connection`maxSendDataSegmentLength, connection`expStatSN
  {
    Write(task.lun, task.tag, task.cdb, task.attribute, task.buffer, CurrentPolicy(session, connection),
          connection.maxSendDataSegmentLength, session.cmdSN, connection.expStatSN)
  }

  // ----- When all loops of a write end

  function Lengths(rs: seq<R2T>): seq<nat> { seq(|rs|, i requires 0 <= i < |rs| => rs[i].length) }

  /** Data-Out loops for the given lengths, one after the other from attempt `first` on, all end: there
    is a segment limit, or a failing send for each length but 0. */
  ghost predicate AllLoopsEnd(limit: nat, lengths: seq<nat>, fails: nat -> bool, first: nat)
    decreases |lengths|
  {
    || limit > 0 || lengths == []
    || (if lengths[0] == 0 then AllLoopsEnd(limit, lengths[1..], fails, first)
        else exists n :: n >= first && fails(n) && AllLoopsEnd(limit, lengths[1..], fails, n + 1))
  }

  lemma {:induction false} EndSooner(limit: nat, lengths: seq<nat>, fails: nat -> bool, first: nat, earlier: nat)
    requires AllLoopsEnd(limit, lengths, fails, first) && earlier <= first
    ensures AllLoopsEnd(limit, lengths, fails, earlier)
    decreases |lengths|
  {
    if limit == 0 && lengths != [] && lengths[0] == 0 {
      EndSooner(limit, lengths[1..], fails, first, earlier);
    }
  }

  lemma FirstLoopEnds(limit: nat, lengths: seq<nat>, fails: nat -> bool, first: nat)
    requires lengths != [] && AllLoopsEnd(limit, lengths, fails, first)
    ensures LoopEnds(limit, lengths[0], fails, first)
  {}

  /** Behind the run that the first loop ended with, the others end. */
  lemma OtherLoopsEnd(run: seq<Attempt>, x: Transfer, offset: u32, length: u32, lengths: seq<nat>,
                      fails: nat -> bool, first: nat)
    requires x.Valid() && Pieces(run, x, offset, length) && Complete(run, x, length) && Follows(run, fails, first)
    requires AllLoopsEnd(x.limit, [length] + lengths, fails, first)
    ensures AllLoopsEnd(x.limit, lengths, fails, first + |run|)
  {
    hide AllLoopsEnd, Pieces, Complete, Follows;
    RunNothing(run, x, offset, length);
    var n := OthersEndLater(x.limit, length, lengths, fails, first);
    if x.limit == 0 && length > 0 {
      FailsLast(run, x, offset, length, fails, first, n);
      EndSooner(x.limit, lengths, fails, n + 1, first + |run|);
    }
  }

  lemma OthersEndLater(limit: nat, length: nat, lengths: seq<nat>, fails: nat -> bool, first: nat) returns (n: nat)
    requires AllLoopsEnd(limit, [length] + lengths, fails, first)
    ensures limit > 0 ==> forall later: nat :: AllLoopsEnd(limit, lengths, fails, later)
    ensures limit == 0 && length == 0 ==> AllLoopsEnd(limit, lengths, fails, first)
    ensures limit == 0 && length > 0 ==> n >= first && fails(n) && AllLoopsEnd(limit, lengths, fails, n + 1)
  {
    n := 0;
    assert ([length] + lengths)[1..] == lengths;
    if limit == 0 && length > 0 {
      n :| n >= first && fails(n) && AllLoopsEnd(limit, lengths, fails, n + 1);
    }
  }

  lemma FailsLast(run: seq<Attempt>, x: Transfer, offset: u32, length: u32, fails: nat -> bool, first: nat, n: nat)
    requires x.Valid() && Pieces(run, x, offset, length) && Follows(run, fails, first)
    requires n >= first && fails(n)
    ensures first + |run| <= n + 1
  {
    hide IsPiece;
    if n - first < |run| {
      FollowsAt(run, fails, first, n - first);
      assert !run[n - first].delivered;
    }
  }

  /** One PDU is received, and if it is an R2T for the task, it is answered. */
  method HandleIncoming(session: Session, connection: Connection, task: Task, taskKnown: bool)
    returns (ghost run: seq<Attempt>, ghost expStatSN: u32)
    requires session.Valid() && connection.Valid() && task.Valid()
    requires var r := ReadHeader(connection.socket.input, connection.socket.cursor, connection.useHeaderDigest);
             r.Accepted? && IsR2TFor(r.header, task.tag) ==>
               LoopEnds(connection.maxSendDataSegmentLength, AsR2T(r.header).length, connection.socket.fails,
                        connection.socket.attempts)
    modifies session`cmdSN, session`issued, session`maxCmdSN, session`expCmdSN, task`realized
    modifies connection`log, connection`traffic, connection`expStatSN, connection`dataToTransfer
    modifies connection.socket`sent, connection.socket`attempts, connection.socket`cursor
    ensures session.Valid() && connection.Valid() && session.cmdSN == old(session.cmdSN)
    ensures var r := ReadHeader(connection.socket.input, old(connection.socket.cursor), connection.useHeaderDigest);
            if r.Accepted? && IsR2TFor(r.header, task.tag)
            then var ask := AsR2T(r.header);
                 Replied(run, Transfer(ask.lun, task.tag, ask.transferTag, task.buffer,
                                       connection.maxSendDataSegmentLength, expStatSN), ask)
            else run == []
    ensures var r := ReadHeader(connection.socket.input, old(connection.socket.cursor), connection.useHeaderDigest);
            if r.Accepted? && r.header[0] == 0x31
            then AnswersR2T(run, r.header, task.tag, task.buffer, connection.maxSendDataSegmentLength, expStatSN)
            else run == []
    ensures expStatSN == connection.expStatSN
    ensures var r := ReadHeader(connection.socket.input, old(connection.socket.cursor), connection.useHeaderDigest);
            Numbers(session, connection) ==
            if r.Accepted? then NextNumbers(r.header, old(Numbers(session, connection)))
            else old(Numbers(session, connection))
    ensures connection.socket.cursor ==
            AfterHandling(connection.socket.input, old(connection.socket.cursor),
                          connection.useHeaderDigest, connection.useDataDigest, taskKnown)
    ensures Follows(run, connection.socket.fails, old(connection.socket.attempts))
    ensures connection.socket.attempts == old(connection.socket.attempts) + |run|
    ensures connection.log == old(connection.log) + run
    ensures task.realized == old(task.realized) + Amount(run)
    ensures connection.dataToTransfer == Minus64(old(connection.dataToTransfer), Amount(run))
  {
    hide WireBytes, StatusAcknowledged, CommandsNumbered, LengthsStamped, Minus64, Word, Replied, AsR2T, ReadHeader;
    hide AfterHandling, AnswersR2T, NextNumbers;
    NothingMinus(connection.dataToTransfer);
    NothingFollowed(connection.socket.fails, connection.socket.attempts);
    var error, h := ProcessIncoming(session, connection, taskKnown);
    run, expStatSN := [], connection.expStatSN;
    if !error && h[0] == OP_R2T {
      run := ProcessR2T(session, connection, task, h);
    }
  }

  /** The PDUs that arrive are intact, and each is read whole by its handler; `known` tells for which of
    them the driver stack finds a task. */
  ghost predicate Intact(ps: seq<Pdu>, rest: Bytes, dd: bool, known: seq<bool>) {
    && |known| == |ps|
    && forall j :: 0 <= j < |ps| ==>
         WellFormed(ps[j]) && ReadWhole(ps[j], dd, known[j], j == |ps| - 1 && rest == [])
  }

  /** Receives as many PDUs as there are in `known` and answers the R2Ts among them; `exps` is what the
    answers acknowledge. */
  method AnswerR2Ts(session: Session, connection: Connection, task: Task, known: seq<bool>, ghost ps: seq<Pdu>,
                    ghost rest: Bytes, ghost w: Write)
    returns (ghost runs: seq<seq<Attempt>>, ghost exps: seq<u32>)
    requires session.Valid() && connection.Valid() && task.Valid()
    requires w.Valid() && w.tag == task.tag && w.buffer == task.buffer
    requires w.limit == connection.maxSendDataSegmentLength
    requires Intact(ps, rest, connection.useDataDigest, known)
    requires Arrives(connection.socket.input, connection.socket.cursor, ps, rest,
                     connection.useHeaderDigest, connection.useDataDigest)
    requires AllLoopsEnd(w.limit, Lengths(Asks(ps, task.tag)), connection.socket.fails, connection.socket.attempts)
    modifies session`cmdSN, session`issued, session`maxCmdSN, session`expCmdSN, task`realized
    modifies connection`log, connection`traffic, connection`expStatSN, connection`dataToTransfer
    modifies connection.socket`sent, connection.socket`attempts, connection.socket`cursor
    ensures session.Valid() && connection.Valid() && session.cmdSN == old(session.cmdSN)
    ensures Replies(runs, Asks(ps, task.tag), w, exps)
    ensures exps == Acknowledged(ps, task.tag, old(Numbers(session, connection)))
    ensures Numbers(session, connection) == NumbersBehind(ps, old(Numbers(session, connection)))
    ensures Arrives(connection.socket.input, connection.socket.cursor, [], rest,
                    connection.useHeaderDigest, connection.useDataDigest)
    ensures connection.log == old(connection.log) + Flatten(runs)
    ensures task.realized == old(task.realized) + Amount(Flatten(runs))
    ensures connection.dataToTransfer == Minus64(old(connection.dataToTransfer), Amount(Flatten(runs)))
  {
    hide WireBytes, StatusAcknowledged, CommandsNumbered, LengthsStamped, Amount, Minus64, Follows;
    hide UpdatesNumbers, Word, Replies, Replied, AsR2T, Flatten, Asks, AllLoopsEnd, ForTask;
    hide Arrives, ReadHeader, AfterHandling, ReadWhole, WellFormed, AnswersR2T;
    hide NextNumbers, NumbersBehind, Acknowledged;
    ghost var start := Numbers(session, connection);
    ghost var before := connection.dataToTransfer;
    ghost var hd, dd := connection.useHeaderDigest, connection.useDataDigest;
    runs, exps := [], [];
    ghost var rs: seq<R2T> := [];
    NothingReplied(w, before);
    assert ps[0..] == ps;
    for j := 0 to |known|
      invariant session.Valid() && connection.Valid() && session.cmdSN == old(session.cmdSN)
      invariant Arrives(connection.socket.input, connection.socket.cursor, ps[j..], rest, hd, dd)
      invariant NumbersBehind(ps[j..], Numbers(session, connection)) == NumbersBehind(ps, start)
      invariant exps + Acknowledged(ps[j..], task.tag, Numbers(session, connection)) == Acknowledged(ps, task.tag, start)
      invariant rs + Asks(ps[j..], task.tag) == Asks(ps, task.tag) && Replies(runs, rs, w, exps)
      invariant AllLoopsEnd(w.limit, Lengths(Asks(ps[j..], task.tag)), connection.socket.fails,
                            connection.socket.attempts)
      invariant connection.log == old(connection.log) + Flatten(runs)
      invariant task.realized == old(task.realized) + Amount(Flatten(runs))
      invariant connection.dataToTransfer == Minus64(before, Amount(Flatten(runs)))
    {
      ghost var h, others := ps[j].header, Asks(ps[j + 1..], task.tag);
      AsksNext(ps, task.tag, j);
      NumbersNext(ps, task.tag, j, Numbers(session, connection));
      ArrivesNext(connection.socket.input, connection.socket.cursor, ps[j..], rest, hd, dd, known[j]);
      if IsR2TFor(h, task.tag) {
        NextLoopEnds(w.limit, AsR2T(h), others, connection.socket.fails, connection.socket.attempts);
      }
      ghost var first := connection.socket.attempts;
      NothingMinus(connection.dataToTransfer);
      ghost var reply, e := HandleIncoming(session, connection, task, known[j]);
      if IsR2TFor(h, task.tag) {
        ghost var r := AsR2T(h);
        ghost var x := Transfer(r.lun, w.tag, r.transferTag, w.buffer, w.limit, e);
        OthersEnd(reply, x, r, others, connection.socket.fails, first);
        RepliesNext(runs, rs, w, exps, reply, r, e);
        FlattenNext(runs, reply);
        AmountConcat(Flatten(runs), reply);
        MinusTwice(before, Amount(Flatten(runs)), Amount(reply));
        ghost var more := Acknowledged(ps[j + 1..], task.tag, Numbers(session, connection));
        assert rs + ([r] + others) == (rs + [r]) + others && exps + ([e] + more) == (exps + [e]) + more;
        runs, rs, exps := runs + [reply], rs + [r], exps + [e];
      } else {
        ghost var more := Acknowledged(ps[j + 1..], task.tag, Numbers(session, connection));
        assert [] + others == others && [] + more == more;
      }
    }
    NoMoreAsks(ps, task.tag);
    NumbersDone(ps, task.tag, Numbers(session, connection));
    assert rs + [] == rs && exps + [] == exps;
  }

  lemma NoMoreAsks(ps: seq<Pdu>, tag: Bytes)
    ensures Asks(ps[|ps|..], tag) == []
  {}

  lemma NothingReplied(w: Write, before: u64)
    requires w.Valid()
    ensures Replies([], [], w, []) && Flatten([]) == []
    ensures Amount(Flatten([])) == 0 && Minus64(before, 0) == before
  {}

  lemma NextLoopEnds(limit: nat, r: R2T, rest: seq<R2T>, fails: nat -> bool, first: nat)
    requires AllLoopsEnd(limit, Lengths([r] + rest), fails, first)
    ensures LoopEnds(limit, r.length, fails, first)
  {
    FirstLoopEnds(limit, Lengths([r] + rest), fails, first);
  }

  lemma OthersEnd(run: seq<Attempt>, x: Transfer, r: R2T, rest: seq<R2T>, fails: nat -> bool, first: nat)
    requires x.Valid() && Replied(run, x, r) && Follows(run, fails, first)
    requires AllLoopsEnd(x.limit, Lengths([r] + rest), fails, first)
    ensures AllLoopsEnd(x.limit, Lengths(rest), fails, first + |run|)
  {
    hide AllLoopsEnd, Pieces, Complete, Follows;
    assert Lengths([r] + rest) == [r.length] + Lengths(rest);
    OtherLoopsEnd(run, x, r.offset, r.length, Lengths(rest), fails, first);
  }

  /** A whole write: the command with its unsolicited data, and then what each R2T asks for among the
    PDUs that arrive on the connection. */
  method PerformWrite(session: Session, connection: Connection, task: Task, known: seq<bool>, ghost ps: seq<Pdu>,
                      ghost rest: Bytes)
    returns (ghost command: Attempt, ghost run: seq<Attempt>, ghost runs: seq<seq<Attempt>>)
    requires session.Valid() && connection.Valid() && task.Valid() && task.direction == ToTarget
    requires Intact(ps, rest, connection.useDataDigest, known)
    requires Arrives(connection.socket.input, connection.socket.cursor, ps, rest,
                     connection.useHeaderDigest, connection.useDataDigest)
    requires AllLoopsEnd(connection.maxSendDataSegmentLength,
                         [DataOutLength(ToTarget, CurrentPolicy(session, connection), |task.buffer|) as nat]
                           + Lengths(Asks(ps, task.tag)),
                         connection.socket.fails, connection.socket.attempts + 1)
    modifies session`cmdSN, session`issued, session`maxCmdSN, session`expCmdSN, task`realized
    modifies connection`log, connection`traffic, connection`expStatSN, connection`dataToTransfer
    modifies connection.socket`sent, connection.socket`attempts, connection.socket`cursor
    ensures session.Valid() && connection.Valid() && session.cmdSN == Inc32(old(session.cmdSN))
    ensures Arrives(connection.socket.input, connection.socket.cursor, [], rest,
                    connection.useHeaderDigest, connection.useDataDigest)
    ensures connection.log == old(connection.log) + [command] + run + Flatten(runs)
    ensures var w, rs := old(WriteOf(session, connection, task)), Asks(ps, task.tag);
            && Begun(command, run, w) && Replies(runs, rs, w, Acknowledged(ps, task.tag, old(Numbers(session, connection))))
            && (AllDelivered([command] + run + Flatten(runs)) && Addressable(rs) ==>
                  Fulfilled(command, run, runs, rs, w, old(connection.dataToTransfer), connection.dataToTransfer))
    ensures Numbers(session, connection) == NumbersBehind(ps, old(Numbers(session, connection)))
    ensures var sent := |command.pdu.data| + Amount(run) + Amount(Flatten(runs));
            && task.realized == old(task.realized) + sent
            && connection.dataToTransfer == Minus64(old(connection.dataToTransfer), sent)
            && (old(connection.dataToTransfer) >= sent ==>
                  connection.dataToTransfer == old(connection.dataToTransfer) - sent)
  {
    hide WireBytes, StatusAcknowledged, CommandsNumbered, LengthsStamped, Headers, Amount, Minus64, AllDelivered;
    hide Follows, FinalBits, Replies, Unsolicited, CommandPdu, Asks, Flatten, Fulfilled, Addressable, Inc32;
    hide AllLoopsEnd, LoopEnds, DataOutLength, Intact, Arrives, CommandSays, NumbersBehind, Acknowledged;
    hide CommandFinal, CarriesImmediate, Lengths;
    ghost var w := WriteOf(session, connection, task);
    ghost var before, first := connection.dataToTransfer, connection.socket.attempts + 1;
    ghost var rs, unasked := Asks(ps, task.tag), DataOutLength(ToTarget, w.policy, |w.buffer|);
    FirstLoopEnds(w.limit, [unasked as nat] + Lengths(rs), connection.socket.fails, first);
    command, run := BeginTask(session, connection, task);
    UnaskedEnds(run, w, Lengths(rs), connection.socket.fails, first);
    ghost var exps;
    runs, exps := AnswerR2Ts(session, connection, task, known, ps, rest, w);
    WriteFulfils(command, run, runs, rs, w, exps, before, connection.dataToTransfer);
  }

  lemma UnaskedEnds(run: seq<Attempt>, w: Write, lengths: seq<nat>, fails: nat -> bool, first: nat)
    requires w.Valid() && Follows(run, fails, first)
    requires Unsolicited(run, Transfer(w.lun, w.tag, RESERVED_TAG, w.buffer, w.limit, w.expStatSN), ToTarget, w.policy)
    requires AllLoopsEnd(w.limit, [DataOutLength(ToTarget, w.policy, |w.buffer|) as nat] + lengths, fails, first)
    ensures AllLoopsEnd(w.limit, lengths, fails, first + |run|)
  {
    hide AllLoopsEnd, Pieces, Complete, Follows;
    var sent, end := Immediate(w.policy, |w.buffer|), UnsolicitedEnd(w.policy, |w.buffer|);
    OtherLoopsEnd(run, Transfer(w.lun, w.tag, RESERVED_TAG, w.buffer, w.limit, w.expStatSN), sent, end - sent,
                  lengths, fails, first);
  }
}
