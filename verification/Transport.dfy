/** Sessions, connections and the PDU transport between them and a socket: numbering, layout,
  digests, and what is read back. */
module Transport {
  import opened Words
  import opened BurstErrors
  import opened Crc32cSpec
  import opened PduHeader
  import opened PduStream
  import opened TaskQueueModel

  // ----- What SendPDU writes into the header

  predicate IsDataOut(h: Header) { h[0] == OP_DATA_OUT }

  predicate IsImmediate(h: Header) { h[0] & IMMEDIATE != 0 }

  /** PDUs that consume a command sequence number. */
  predicate Numbered(h: Header) { !IsDataOut(h) && !IsImmediate(h) }

  /** In the bits of the header: the immediate bit is clear, and it is not a Data-Out. */
  lemma NumberedBits(h: Header)
    ensures Numbered(h) <==> h[0] & 0x40 == 0 && h[0] != 0x05
    ensures IsDataOut(h) <==> h[0] == 0x05
  {}

  function Stamp(h: Header, cmdSN: u32, expStatSN: u32, length: u32): Header {
    var numbered := if IsDataOut(h) then h else PutWord(h, CMD_SN, cmdSN);
    SetDataLength(PutWord(numbered, EXP_STAT_SN, expStatSN), length)
  }

  lemma StampKeeps(h: Header, cmdSN: u32, expStatSN: u32, length: u32, at: nat, n: nat)
    requires at + n <= HEADER_SIZE
    requires at + n <= DATA_LENGTH || (8 <= at && at + n <= CMD_SN) || 32 <= at
    ensures Field(Stamp(h, cmdSN, expStatSN, length), at, n) == Field(h, at, n)
  {
    hide Field, Put, Le32, Swap32;
    var h1 := if IsDataOut(h) then h else PutWord(h, CMD_SN, cmdSN);
    var h2 := PutWord(h1, EXP_STAT_SN, expStatSN);
    FieldOfPut(h, CMD_SN, Le32(Swap32(cmdSN)), at, n);
    FieldOfPut(h1, EXP_STAT_SN, Le32(Swap32(expStatSN)), at, n);
    FieldOfPut(h2, DATA_LENGTH, Le32(Swap32(length) / 256)[..3], at, n);
  }

  lemma StampedOpcode(h: Header, cmdSN: u32, expStatSN: u32, length: u32)
    ensures var s := Stamp(h, cmdSN, expStatSN, length);
            s[0] == h[0] && s[FLAGS] == h[FLAGS] && IsDataOut(s) == IsDataOut(h) && Numbered(s) == Numbered(h)
  {
    hide Stamp;
    StampKeeps(h, cmdSN, expStatSN, length, 0, 2);
    var s := Stamp(h, cmdSN, expStatSN, length);
    assert Field(s, 0, 2)[0] == s[0] && Field(h, 0, 2)[0] == h[0];
    assert Field(s, 0, 2)[1] == s[1] && Field(h, 0, 2)[1] == h[1];
  }

  lemma StampedNumbers(h: Header, cmdSN: u32, expStatSN: u32, length: u32)
    ensures var s := Stamp(h, cmdSN, expStatSN, length);
            && Word(s, EXP_STAT_SN) == expStatSN
            && (!IsDataOut(h) ==> Word(s, CMD_SN) == cmdSN)
            && (IsDataOut(h) ==> Field(s, CMD_SN, 4) == Field(h, CMD_SN, 4))
            && DataLength(s) == length % 0x100_0000
  {
    hide Field, Put, Le32, FromLe32, Swap32, DataLength;
    var h1 := if IsDataOut(h) then h else PutWord(h, CMD_SN, cmdSN);
    var h2 := PutWord(h1, EXP_STAT_SN, expStatSN);
    WordOfPut(h1, EXP_STAT_SN, expStatSN);
    FieldOfPut(h2, DATA_LENGTH, Le32(Swap32(length) / 256)[..3], EXP_STAT_SN, 4);
    WordOfPut(h, CMD_SN, cmdSN);
    FieldOfPut(h1, EXP_STAT_SN, Le32(Swap32(expStatSN)), CMD_SN, 4);
    FieldOfPut(h2, DATA_LENGTH, Le32(Swap32(length) / 256)[..3], CMD_SN, 4);
    DataLengthRoundTrip(h2, length);
  }

  lemma StampedLength(h: Header, cmdSN: u32, expStatSN: u32, length: u32)
    ensures Stamp(h, cmdSN, expStatSN, length)[5..8] ==
            [ByteOf(length / 65536 % 256), ByteOf(length / 256 % 256), ByteOf(length % 256)]
  {
    hide ByteOf, PutWord, SetDataLength, DataLength;
    DataLengthRoundTrip(PutWord(if IsDataOut(h) then h else PutWord(h, CMD_SN, cmdSN), EXP_STAT_SN, expStatSN), length);
  }

  lemma StampedRest(h: Header, cmdSN: u32, expStatSN: u32, length: u32)
    ensures var s := Stamp(h, cmdSN, expStatSN, length);
            s[..5] == h[..5] && s[8..24] == h[8..24] && s[32..] == h[32..]
  {
    hide Stamp;
    StampKeeps(h, cmdSN, expStatSN, length, 0, 5);
    StampKeeps(h, cmdSN, expStatSN, length, 8, 16);
    StampKeeps(h, cmdSN, expStatSN, length, 32, 16);
    var s := Stamp(h, cmdSN, expStatSN, length);
    assert s[32..] == s[32..48] && h[32..] == h[32..48] && s[..5] == s[0..5] && h[..5] == h[0..5];
  }

  /** What stamping writes, byte for byte: the length, the acknowledged number and, but for Data-Out, the
    command number, each in network order. */
  lemma StampOnWire(h: Header, cmdSN: u32, expStatSN: u32, length: u32)
    ensures var s := Stamp(h, cmdSN, expStatSN, length);
            && s[..5] == h[..5] && s[8..24] == h[8..24] && s[32..] == h[32..]
            && BigEndian(s[28..32]) == expStatSN
            && (if h[0] == 0x05 then s[24..28] == h[24..28] else BigEndian(s[24..28]) == cmdSN)
            && s[5..8] == [ByteOf(length / 65536 % 256), ByteOf(length / 256 % 256), ByteOf(length % 256)]
  {
    hide Stamp, Word, Field, BigEndian, ByteOf, DataLength;
    var s := Stamp(h, cmdSN, expStatSN, length);
    StampedRest(h, cmdSN, expStatSN, length);
    StampedLength(h, cmdSN, expStatSN, length);
    StampedNumbers(h, cmdSN, expStatSN, length);
    WordIsBigEndian(s, 28);
    WordIsBigEndian(s, 24);
    FieldIs(s, CMD_SN, 4);
    FieldIs(h, CMD_SN, 4);
  }

  lemma TailSlices(h: Header, s: Header)
    requires s[32..] == h[32..] && s[8..24] == h[8..24] && s[..5] == h[..5]
    ensures s[0] == h[0] && s[1] == h[1] && s[2..5] == h[2..5]
    ensures s[8..16] == h[8..16] && s[16..20] == h[16..20] && s[20..24] == h[20..24]
    ensures s[32..36] == h[32..36] && s[36..40] == h[36..40] && s[40..44] == h[40..44] && s[44..] == h[44..]
  {
    assert s[0] == s[..5][0] && s[1] == s[..5][1];
    assert s[..5] == s[0..5] && h[..5] == h[0..5] && s[32..] == s[32..48] && h[32..] == h[32..48];
    SubSlice(s, h, 0, 5, 2, 5);
    SubSlice(s, h, 8, 24, 8, 16);
    SubSlice(s, h, 8, 24, 16, 20);
    SubSlice(s, h, 8, 24, 20, 24);
    SubSlice(s, h, 32, 48, 32, 36);
    SubSlice(s, h, 32, 48, 36, 40);
    SubSlice(s, h, 32, 48, 40, 44);
    SubSlice(s, h, 32, 48, 44, 48);
  }

  // ----- Command numbers over a session

  /** How many of the headers have the immediate bit clear and are no Data-Out. */
  function CountNumbered(hs: seq<Header>): nat
    decreases |hs|
  {
    if hs == [] then 0
    else CountNumbered(hs[..|hs| - 1])
         + if hs[|hs| - 1][0] & 0x40 == 0 && hs[|hs| - 1][0] != 0x05 then 1 else 0
  }

  /** Everything issued so far carries the number of commands numbered before it. */
  ghost predicate CommandsNumbered(issued: seq<Header>, first: u32, cmdSN: u32) {
    && cmdSN == Wrap32(first + CountNumbered(issued))
    && forall i :: 0 <= i < |issued| && issued[i][0] != 0x05 ==>
         Word(issued[i], CMD_SN) == Wrap32(first + CountNumbered(issued[..i]))
  }

  lemma CountNumberedNext(hs: seq<Header>, h: Header)
    ensures CountNumbered(hs + [h]) == CountNumbered(hs) + if Numbered(h) then 1 else 0
  {
    NumberedBits(h);
    hide Numbered;
    assert (hs + [h])[..|hs + [h]| - 1] == hs;
  }

  lemma IssueNext(issued: seq<Header>, first: u32, cmdSN: u32, h: Header)
    requires CommandsNumbered(issued, first, cmdSN)
    requires !IsDataOut(h) ==> Word(h, CMD_SN) == cmdSN
    ensures CommandsNumbered(issued + [h], first, if Numbered(h) then Inc32(cmdSN) else cmdSN)
  {
    CountNumberedNext(issued, h);
    NumberedBits(h);
    hide Word, Wrap32, Numbered, IsDataOut, CountNumbered;
    var next := issued + [h];
    WrapAdd(first + CountNumbered(issued), 1);
    forall i | 0 <= i < |next| && next[i][0] != 0x05
      ensures Word(next[i], CMD_SN) == Wrap32(first + CountNumbered(next[..i]))
    {
      assert next[..i] == issued[..i];
    }
  }

  lemma {:induction false} CountNumberedConcat(a: seq<Header>, b: seq<Header>)
    ensures CountNumbered(a + b) == CountNumbered(a) + CountNumbered(b)
    decreases |b|
  {
    if b == [] {
      assert a + b == a;
    } else {
      var n := |b| - 1;
      assert (a + b)[..|a + b| - 1] == a + b[..n];
      CountNumberedConcat(a, b[..n]);
    }
  }

  /** Between any two PDUs of a session that carry a command number, the number advances by
    exactly the PDUs in between that are neither immediate nor Data-Out, modulo 2^32. */
  lemma NumbersAdvance(issued: seq<Header>, first: u32, cmdSN: u32, i: nat, j: nat)
    requires CommandsNumbered(issued, first, cmdSN)
    requires i <= j < |issued| && issued[i][0] != 0x05 && issued[j][0] != 0x05
    ensures Word(issued[j], CMD_SN) ==
            Wrap32(Word(issued[i], CMD_SN) + CountNumbered(issued[i..j]))
  {
    hide Word, Wrap32, CountNumbered;
    assert issued[..j] == issued[..i] + issued[i..j];
    CountNumberedConcat(issued[..i], issued[i..j]);
    WrapAdd(first + CountNumbered(issued[..i]), CountNumbered(issued[i..j]));
  }

  // ----- Status numbers on a connection

  datatype Traffic = Sent(header: Header) | Heard(header: Header)

  /** A Data-In PDU without status leaves the sequence numbers alone. */
  predicate UpdatesNumbers(h: Header) { !(h[0] == OP_DATA_IN && h[FLAGS] & 1 == 0) }

  predicate CountsStatus(h: Header) {
    && UpdatesNumbers(h) && h[0] != OP_R2T
    && Word(h, STAT_SN) != 0xffff_ffff && Field(h, TASK_TAG, 4) != RESERVED_TAG
  }

  function CountStatus(ts: seq<Traffic>): nat
    decreases |ts|
  {
    if ts == [] then 0
    else
      var t := ts[|ts| - 1];
      CountStatus(ts[..|ts| - 1]) + if t.Heard? && CountsStatus(t.header) then 1 else 0
  }

  /** Every PDU sent acknowledges exactly the status PDUs heard before it. */
  ghost predicate StatusAcknowledged(ts: seq<Traffic>, first: u32, expStatSN: u32) {
    && expStatSN == Wrap32(first + CountStatus(ts))
    && forall i :: 0 <= i < |ts| && ts[i].Sent? ==>
         Word(ts[i].header, EXP_STAT_SN) == Wrap32(first + CountStatus(ts[..i]))
  }

  lemma TrafficNext(ts: seq<Traffic>, first: u32, expStatSN: u32, t: Traffic)
    requires StatusAcknowledged(ts, first, expStatSN)
    requires t.Sent? ==> Word(t.header, EXP_STAT_SN) == expStatSN
    ensures StatusAcknowledged(ts + [t], first,
                               if t.Heard? && CountsStatus(t.header) then Inc32(expStatSN) else expStatSN)
  {
    hide Word, Wrap32, CountsStatus, CountStatus;
    var next := ts + [t];
    WrapAdd(first + CountStatus(ts), 1);
    CountStatusNext(ts, t);
    forall i | 0 <= i < |next| && next[i].Sent?
      ensures Word(next[i].header, EXP_STAT_SN) == Wrap32(first + CountStatus(next[..i]))
    {
      assert next[..i] == ts[..i];
      if i == |ts| {
        assert ts[..i] == ts;
      }
    }
  }

  lemma CountStatusNext(ts: seq<Traffic>, t: Traffic)
    ensures CountStatus(ts + [t]) == CountStatus(ts) + if t.Heard? && CountsStatus(t.header) then 1 else 0
  {
    hide CountsStatus;
    var next := ts + [t];
    assert next[..|next| - 1] == ts && next[|next| - 1] == t;
  }

  // ----- The log of a connection and its bytes

  /** A PDU handed to the socket, with the digest settings of that moment. */
  datatype Attempt = Attempt(pdu: Pdu, headerDigest: bool, dataDigest: bool, delivered: bool)

  function WireBytes(log: seq<Attempt>): Bytes
    decreases |log|
  {
    if log == [] then []
    else
      var a := log[|log| - 1];
      WireBytes(log[..|log| - 1]) + if a.delivered then PduBytes(a.pdu, a.headerDigest, a.dataDigest) else []
  }

  /** The PDUs that reached the wire. */
  function Delivered(log: seq<Attempt>): seq<Pdu>
    decreases |log|
  {
    if log == [] then []
    else Delivered(log[..|log| - 1]) + if log[|log| - 1].delivered then [log[|log| - 1].pdu] else []
  }

  lemma {:induction false} WireIsStream(log: seq<Attempt>, hd: bool, dd: bool)
    requires forall a :: a in log ==> a.headerDigest == hd && a.dataDigest == dd
    ensures WireBytes(log) == StreamBytes(Delivered(log), hd, dd)
    decreases |log|
  {
    hide PduBytes;
    if log != [] {
      var n := |log| - 1;
      WireIsStream(log[..n], hd, dd);
      if log[n].delivered {
        StreamConcat(Delivered(log[..n]), [log[n].pdu], hd, dd);
        SingleStream(log[n].pdu, hd, dd);
      } else {
        assert Delivered(log) == Delivered(log[..n]);
        assert WireBytes(log) == WireBytes(log[..n]);
      }
    }
  }

  lemma SingleStream(p: Pdu, hd: bool, dd: bool)
    ensures StreamBytes([p], hd, dd) == PduBytes(p, hd, dd)
  {
    hide PduBytes;
    assert StreamBytes([p], hd, dd) == PduBytes(p, hd, dd) + StreamBytes([p][1..], hd, dd);
  }

  /** The length field holds what 24 bits can hold of the data's length. */
  predicate LengthStamped(p: Pdu) { DataLength(p.header) == |p.data| % 0x100_0000 }

  ghost predicate LengthsStamped(log: seq<Attempt>) {
    forall a :: a in log ==> LengthStamped(a.pdu)
  }

  /** A stamped PDU describes its data correctly if and only if the data is shorter than 2^24 bytes. */
  lemma WellFormedIff(h: Header, cmdSN: u32, expStatSN: u32, data: Bytes)
    requires |data| < 0x1_0000_0000
    ensures var p := Pdu(Stamp(h, cmdSN, expStatSN, |data|), data);
            LengthStamped(p) && (WellFormed(p) <==> |data| < 0x100_0000)
  {
    hide Stamp, DataLength, Word;
    StampedNumbers(h, cmdSN, expStatSN, |data|);
  }

  lemma {:induction false} DeliveredIn(log: seq<Attempt>, p: Pdu)
    ensures p in Delivered(log) <==> exists a :: a in log && a.delivered && a.pdu == p
    decreases |log|
  {
    if log != [] {
      var n := |log| - 1;
      DeliveredIn(log[..n], p);
      assert log == log[..n] + [log[n]];
    }
  }

  /** A peer with the same digest settings reads back exactly the PDUs that were delivered if and only
    if each of them carries fewer than 2^24 bytes. */
  lemma PeerReadsDelivered(log: seq<Attempt>, hd: bool, dd: bool)
    requires forall a :: a in log ==> a.headerDigest == hd && a.dataDigest == dd
    requires LengthsStamped(log)
    ensures ReadPdus(WireBytes(log), 0, |Delivered(log)|, hd, dd) == Read(Delivered(log), |WireBytes(log)|) <==>
            forall a :: a in log && a.delivered ==> |a.pdu.data| < 0x100_0000
  {
    hide ReadPdus, StreamBytes, DataLength, WireBytes, Delivered;
    WireIsStream(log, hd, dd);
    StreamRoundTrip(Delivered(log), [], hd, dd);
    assert WireBytes(log) + [] == WireBytes(log);
    forall p
      ensures p in Delivered(log) <==> exists a :: a in log && a.delivered && a.pdu == p
    {
      DeliveredIn(log, p);
    }
    forall a | a in log && a.delivered
      ensures WellFormed(a.pdu) <==> |a.pdu.data| < 0x100_0000
    {
      assert LengthStamped(a.pdu);
    }
  }

  /** What a connection has put on the wire is read back exactly, if its digest settings never changed. */
  lemma PeerReadsConnection(connection: Connection)
    requires connection.Valid()
    requires forall a :: a in connection.log ==>
               a.headerDigest == connection.useHeaderDigest && a.dataDigest == connection.useDataDigest
    ensures var delivered := Delivered(connection.log);
            ReadPdus(connection.socket.sent, 0, |delivered|, connection.useHeaderDigest, connection.useDataDigest)
              == Read(delivered, |connection.socket.sent|) <==>
            forall a :: a in connection.log && a.delivered ==> |a.pdu.data| < 0x100_0000
  {
    hide ReadPdus, WireBytes, Delivered;
    PeerReadsDelivered(connection.log, connection.useHeaderDigest, connection.useDataDigest);
  }

  // ----- Objects

  /** A connected socket: sends may fail, receives wait for what the peer will send. */
  class Socket {
    ghost const home: (nat, nat)
    const fails: nat -> bool
    const input: Bytes
    var attempts: nat
    var sent: Bytes
    var cursor: nat

    ghost predicate Valid()
      reads this
    {
      cursor <= |input|
    }

    constructor (ghost home: (nat, nat), fails: nat -> bool, input: Bytes)
      ensures Valid() && this.home == home && attempts == 0 && sent == [] && cursor == 0
    {
      this.home, this.fails, this.input := home, fails, input;
      attempts, sent, cursor := 0, [], 0;
    }

    method Send(s: Bytes) returns (error: bool)
      modifies this`attempts, this`sent
      ensures attempts == old(attempts) + 1 && error == fails(old(attempts))
      ensures sent == if error then old(sent) else old(sent) + s
    {
      error := fails(attempts);
      attempts := attempts + 1;
      if !error {
        sent := sent + s;
      }
    }

    method Receive(n: nat) returns (got: Bytes)
      requires Valid()
      modifies this`cursor
      ensures Valid() && got == Available(input, old(cursor), n) && cursor == old(cursor) + |got|
    {
      got := Available(input, cursor, n);
      cursor := cursor + |got|;
    }
  }

  class Connection {
    ghost const home: (nat, nat)
    const cid: nat
    const taskQueue: TaskQueue
    const socket: Socket
    var expStatSN: u32
    var dataToTransfer: u64
    var immediateDataLength: u32
    var maxSendDataSegmentLength: u32
    var useHeaderDigest: bool
    var useDataDigest: bool
    var bytesPerSecHistoryIdx: nat
    var dataRecvEnabled: bool
    ghost var log: seq<Attempt>
    /** What was sent and heard since the status number was last set, and that number. */
    ghost var traffic: seq<Traffic>
    ghost var firstStatSN: u32

    /** The wire holds the delivered PDUs, each with its length stamped, and every PDU sent
      acknowledges what was heard. */
    ghost predicate Valid()
      reads this, socket
    {
      && socket.Valid()
      && socket.sent == WireBytes(log) && LengthsStamped(log)
      && StatusAcknowledged(traffic, firstStatSN, expStatSN)
    }

    constructor (sid: nat, cid: nat, fails: nat -> bool, input: Bytes)
      ensures Valid() && home == (sid, cid) && this.cid == cid && log == [] && !dataRecvEnabled
      ensures expStatSN == 0 && dataToTransfer == 0 && maxSendDataSegmentLength == 8192
      ensures !useHeaderDigest && !useDataDigest
      ensures fresh(taskQueue) && fresh(socket) && taskQueue.home == socket.home == (sid, cid)
      ensures taskQueue.Valid() && !taskQueue.enabled && taskQueue.queue == []
      ensures bytesPerSecHistoryIdx == 0
    {
      this.home, this.cid := (sid, cid), cid;
      taskQueue := new TaskQueue((sid, cid));
      socket := new Socket((sid, cid), fails, input);
      hide StatusAcknowledged;
      NothingHeard(0);
      expStatSN, dataToTransfer, immediateDataLength, maxSendDataSegmentLength := 0, 0, 0, 8192;
      useHeaderDigest, useDataDigest, dataRecvEnabled := false, false, false;
      bytesPerSecHistoryIdx := 0;
      log, traffic, firstStatSN := [], [], 0;
    }

    /** The daemon hands over the status number it reached during login. */
    method SetInitialExpStatSN(n: u32)
      requires Valid()
      modifies this`expStatSN, this`traffic, this`firstStatSN
      ensures Valid() && expStatSN == firstStatSN == n && traffic == []
    {
      hide StatusAcknowledged, WireBytes, LengthsStamped;
      NothingHeard(n);
      expStatSN, firstStatSN, traffic := n, n, [];
    }
  }

  class Session {
    const sessionId: nat
    var cmdSN: u32
    var expCmdSN: u32
    var maxCmdSN: u32
    var connections: seq<Connection?>
    var numActiveConnections: u32
    var initialR2T: bool
    var immediateData: bool
    var firstBurstLength: u32
    ghost var issued: seq<Header>

    ghost predicate Valid()
      reads this
    {
      CommandsNumbered(issued, 0, cmdSN)
    }

    constructor (sessionId: nat)
      ensures Valid() && this.sessionId == sessionId && issued == []
      ensures connections == [null, null] && numActiveConnections == 0
      ensures cmdSN == expCmdSN == maxCmdSN == 0 && initialR2T && immediateData && firstBurstLength == 65536
    {
      hide CommandsNumbered;
      NothingIssued();
      this.sessionId := sessionId;
      cmdSN, expCmdSN, maxCmdSN, numActiveConnections := 0, 0, 0, 0;
      connections := [null, null];
      initialR2T, immediateData, firstBurstLength := true, true, 65536;
      issued := [];
    }
  }

  lemma NothingIssued()
    ensures CommandsNumbered([], 0, 0)
  {}

  lemma NothingHeard(n: u32)
    ensures StatusAcknowledged([], n, n)
  {}

  /** The command number of a session behind a PDU: an immediate PDU or a Data-Out leaves it, any other
    uses one up, modulo 2^32. */
  function NextCmdSN(h: Header, cmdSN: u32): u32 {
    if h[0] & 0x40 != 0 || h[0] == 0x05 then cmdSN else (cmdSN + 1) % 0x1_0000_0000
  }

  lemma NumberedNext(h: Header, cmdSN: u32)
    ensures NextCmdSN(h, cmdSN) == if Numbered(h) then Inc32(cmdSN) else cmdSN
  {}

  /** The status number a connection expects behind a PDU that comes in: a Data-In without status, an R2T, and a
    PDU with a reserved status number or task tag leave it, any other counts one up, modulo 2^32. */
  function NextStatSN(h: Header, expStatSN: u32): u32 {
    if (h[0] == 0x25 && h[1] & 0x01 == 0) || h[0] == 0x31
       || BigEndian(h[24..28]) == 0xffff_ffff || h[16..20] == [0xff, 0xff, 0xff, 0xff]
    then expStatSN else (expStatSN + 1) % 0x1_0000_0000
  }

  /** A number of the command window when a PDU comes in that has one at byte `at`: it never falls, and a
    Data-In without status leaves it. */
  function WindowNumber(h: Header, at: nat, before: u32): u32
    requires at + 4 <= HEADER_SIZE
  {
    if h[0] == 0x25 && h[1] & 0x01 == 0 then before
    else if BigEndian(h[at..at + 4]) > before then BigEndian(h[at..at + 4]) else before
  }

  lemma TakenOver(h: Header, at: nat, before: u32)
    requires at + 4 <= HEADER_SIZE
    ensures WindowNumber(h, at, before) == if UpdatesNumbers(h) && Word(h, at) > before then Word(h, at) else before
  {
    WordIsBigEndian(h, at);
    hide Word, BigEndian;
  }

  /** The numbers a PDU that comes in can change: the command window of the session, and the status number expected
    on the connection. */
  datatype Window = Window(maxCmdSN: u32, expCmdSN: u32, expStatSN: u32)

  function Numbers(session: Session, connection: Connection): Window
    reads session`maxCmdSN, session`expCmdSN, connection`expStatSN
  {
    Window(session.maxCmdSN, session.expCmdSN, connection.expStatSN)
  }

  function NextNumbers(h: Header, n: Window): Window {
    Window(WindowNumber(h, 32, n.maxCmdSN), WindowNumber(h, 28, n.expCmdSN), NextStatSN(h, n.expStatSN))
  }

  lemma CountedNext(h: Header, expStatSN: u32)
    ensures NextStatSN(h, expStatSN) == if CountsStatus(h) then Inc32(expStatSN) else expStatSN
  {
    WordIsBigEndian(h, STAT_SN);
    hide Word, BigEndian;
  }

  // ----- Sending and receiving

  function NextPdu(session: Session, connection: Connection, bhs: Header, data: Bytes): Pdu
    requires |data| < 0x1_0000_0000
    reads session`cmdSN, connection`expStatSN
  {
    Pdu(Stamp(bhs, session.cmdSN, connection.expStatSN, |data|), data)
  }

  /** Stamps, lays out and sends one PDU.  The command number is consumed even if the send fails. */
  method SendPDU(session: Session, connection: Connection, bhs: Header, data: Bytes) returns (error: bool)
    requires |data| < 0x1_0000_0000
    requires session.Valid() && connection.Valid()
    modifies session`cmdSN, session`issued
    modifies connection`log, connection`traffic, connection.socket`sent, connection.socket`attempts
    ensures session.Valid() && connection.Valid()
    ensures session.issued == old(session.issued) + [old(NextPdu(session, connection, bhs, data)).header]
    ensures session.cmdSN == NextCmdSN(bhs, old(session.cmdSN))
    ensures connection.log == old(connection.log) + [Attempt(old(NextPdu(session, connection, bhs, data)),
              connection.useHeaderDigest, connection.useDataDigest, !error)]
    ensures error == connection.socket.fails(old(connection.socket.attempts))
    ensures connection.socket.attempts == old(connection.socket.attempts) + 1
  {
    hide Stamp, Word, PduBytes, Numbered, IsDataOut, Inc32, CommandsNumbered, StatusAcknowledged, WireBytes;
    hide NextCmdSN, LengthStamped, WellFormed, DataLength;
    NumberedNext(bhs, session.cmdSN);
    var h := Stamp(bhs, session.cmdSN, connection.expStatSN, |data|);
    StampedOpcode(bhs, session.cmdSN, connection.expStatSN, |data|);
    StampedNumbers(bhs, session.cmdSN, connection.expStatSN, |data|);
    WellFormedIff(bhs, session.cmdSN, connection.expStatSN, data);
    IssueNext(session.issued, 0, session.cmdSN, h);
    TrafficNext(connection.traffic, connection.firstStatSN, connection.expStatSN, Sent(h));
    ghost var p := Pdu(h, data);
    session.issued := session.issued + [h];
    if Numbered(bhs) {
      session.cmdSN := Inc32(session.cmdSN);
    }
    var packet := LayOut(h, data, connection.useHeaderDigest, connection.useDataDigest);
    error := connection.socket.Send(packet);
    ghost var a := Attempt(p, connection.useHeaderDigest, connection.useDataDigest, !error);
    WireNext(connection.log, a);
    connection.log := connection.log + [a];
    connection.traffic := connection.traffic + [Sent(h)];
  }

  /** The answer to a ping of the target: marked for immediate delivery, with the unit and transfer tag of the
    ping and no task tag. */
  function PingAnswer(lun: Bytes, transferTag: Bytes): Header
    requires |lun| == 8 && |transferTag| == 4
  {
    var h0: Header := [OP_NOP_OUT | IMMEDIATE, FINAL] + Zeros(46);
    Put(Put(Put(h0, LUN, lun), TASK_TAG, RESERVED_TAG), TRANSFER_TAG, transferTag)
  }

  lemma PingLayout(lun: Bytes, transferTag: Bytes)
    requires |lun| == 8 && |transferTag| == 4
    ensures PingAnswer(lun, transferTag) ==
            [0x40, 0x80] + Zeros(6) + lun + [0xff, 0xff, 0xff, 0xff] + transferTag + Zeros(24)
  {
    hide Put;
    var f: Bytes, none: Bytes := [0x40, 0x80], [0xff, 0xff, 0xff, 0xff];
    assert f + Zeros(46) == (f + Zeros(6)) + Zeros(8) + Zeros(32);
    PutBetween(f + Zeros(6), Zeros(8), Zeros(32), lun);
    var a := f + Zeros(6) + lun;
    assert a + Zeros(32) == a + Zeros(4) + Zeros(28);
    PutBetween(a, Zeros(4), Zeros(28), none);
    assert a + none + Zeros(28) == (a + none) + Zeros(4) + Zeros(24);
    PutBetween(a + none, Zeros(4), Zeros(24), transferTag);
  }

  /** What the answer to a ping says when it is sent. */
  ghost predicate PingAnswered(s: Header, ping: Header, cmdSN: u32, expStatSN: u32) {
    && s[0] == 0x40 && s[1] == 0x80 && s[8..16] == ping[8..16]
    && s[16..20] == [0xff, 0xff, 0xff, 0xff] && s[20..24] == ping[20..24]
    && BigEndian(s[24..28]) == cmdSN && BigEndian(s[28..32]) == expStatSN
  }

  lemma PingOnWire(ping: Header, cmdSN: u32, expStatSN: u32, length: u32)
    ensures var h := PingAnswer(ping[8..16], ping[20..24]);
            NextCmdSN(h, cmdSN) == cmdSN && PingAnswered(Stamp(h, cmdSN, expStatSN, length), ping, cmdSN, expStatSN)
  {
    hide Stamp, BigEndian, PingAnswer;
    var h := PingAnswer(ping[8..16], ping[20..24]);
    PingLayout(ping[8..16], ping[20..24]);
    assert h[0] == 0x40 && h[1] == 0x80 && h[8..16] == ping[8..16];
    assert h[16..20] == [0xff, 0xff, 0xff, 0xff] && h[20..24] == ping[20..24];
    StampOnWire(h, cmdSN, expStatSN, length);
    TailSlices(h, Stamp(h, cmdSN, expStatSN, length));
  }

  /** Answers a ping of the target with its own data; no command number is used up. */
  method AnswerPing(session: Session, connection: Connection, ping: Header, data: Bytes) returns (error: bool)
    requires |data| < 0x1_0000_0000
    requires session.Valid() && connection.Valid()
    modifies session`cmdSN, session`issued
    modifies connection`log, connection`traffic, connection.socket`sent, connection.socket`attempts
    ensures session.Valid() && connection.Valid() && session.cmdSN == old(session.cmdSN)
    ensures |connection.log| == |old(connection.log)| + 1
    ensures var a := connection.log[|old(connection.log)|];
            && connection.log == old(connection.log) + [a] && a.pdu.data == data && a.delivered == !error
            && PingAnswered(a.pdu.header, ping, session.cmdSN, connection.expStatSN)
  {
    hide Stamp, NextCmdSN, PingAnswer, PingAnswered, CommandsNumbered, StatusAcknowledged, WireBytes, LengthsStamped;
    PingOnWire(ping, session.cmdSN, connection.expStatSN, |data|);
    error := SendPDU(session, connection, PingAnswer(ping[8..16], ping[20..24]), data);
  }

  lemma WireNext(log: seq<Attempt>, a: Attempt)
    ensures WireBytes(log + [a]) ==
            WireBytes(log) + if a.delivered then PduBytes(a.pdu, a.headerDigest, a.dataDigest) else []
  {
    hide PduBytes;
    assert (log + [a])[..|log + [a]| - 1] == log;
  }

  /** The I/O vector of one PDU: header, digest, data, padding, digest. */
  method LayOut(h: Header, data: Bytes, headerDigest: bool, dataDigest: bool) returns (packet: Bytes)
    ensures packet == PduBytes(Pdu(h, data), headerDigest, dataDigest)
  {
    hide DigestBytes, Crc32c, Zeros;
    packet := h;
    if headerDigest {
      packet := packet + DigestBytes(Crc32c(0, h));
    }
    ghost var front := packet;
    if |data| != 0 {
      packet := packet + data;
      var paddingLen := 4 - |data| % 4;
      if paddingLen != 4 {
        packet := packet + Zeros(paddingLen);
      }
      assert packet == front + (data + Zeros(PaddingLength(|data|)));
      if dataDigest {
        packet := packet + DigestBytes(Crc32c(0, data));
      }
      assert packet == front + DataPart(data, dataDigest);
    }
  }

  method RecvPDUHeader(session: Session, connection: Connection) returns (error: bool, header: Header)
    requires session.Valid() && connection.Valid()
    modifies session`maxCmdSN, session`expCmdSN
    modifies connection`expStatSN, connection`traffic, connection.socket`cursor
    ensures session.Valid() && connection.Valid()
    ensures var r := ReadHeader(connection.socket.input, old(connection.socket.cursor), connection.useHeaderDigest);
            && connection.socket.cursor == r.next
            && error == r.Rejected?
            && (!error ==> header == r.header)
    ensures connection.traffic == if error then old(connection.traffic) else old(connection.traffic) + [Heard(header)]
    ensures Numbers(session, connection) ==
            if error then old(Numbers(session, connection)) else NextNumbers(header, old(Numbers(session, connection)))
  {
    hide NextNumbers, DigestWord, Crc32c, Available, Word, StatusAcknowledged, WireBytes, UpdatesNumbers;
    header := Zeros(HEADER_SIZE);
    var got := connection.socket.Receive(HEADER_SIZE + if connection.useHeaderDigest then 4 else 0);
    if |got| < HEADER_SIZE {
      return true, header;
    }
    header := got[..HEADER_SIZE];
    var headerDigest := DigestWord(got[HEADER_SIZE..]);
    if headerDigest != 0 {
      if headerDigest != Crc32c(0, header) {
        return true, header;
      }
    }
    TakeNumbers(session, connection, header);
    error := false;
  }

  /** Takes over the sequence numbers of an accepted header. */
  method TakeNumbers(session: Session, connection: Connection, header: Header)
    requires connection.Valid()
    modifies session`maxCmdSN, session`expCmdSN, connection`expStatSN, connection`traffic
    ensures connection.Valid()
    ensures connection.traffic == old(connection.traffic) + [Heard(header)]
    ensures Numbers(session, connection) == NextNumbers(header, old(Numbers(session, connection)))
  {
    hide NextStatSN, WindowNumber, Word, StatusAcknowledged, WireBytes, Inc32;
    CountedNext(header, connection.expStatSN);
    TakenOver(header, MAX_CMD_SN, session.maxCmdSN);
    TakenOver(header, EXP_CMD_SN, session.expCmdSN);
    TrafficNext(connection.traffic, connection.firstStatSN, connection.expStatSN, Heard(header));
    connection.traffic := connection.traffic + [Heard(header)];
    if header[0] == OP_DATA_IN && header[FLAGS] & 1 == 0 {
      return;
    }
    if Word(header, MAX_CMD_SN) > session.maxCmdSN {
      session.maxCmdSN := Word(header, MAX_CMD_SN);
    }
    if Word(header, EXP_CMD_SN) > session.expCmdSN {
      session.expCmdSN := Word(header, EXP_CMD_SN);
    }
    if header[0] != OP_R2T && Word(header, STAT_SN) != 0xffff_ffff && Field(header, TASK_TAG, 4) != RESERVED_TAG {
      connection.expStatSN := Inc32(connection.expStatSN);
    }
  }

  method CopyInto(buffer: array<bv8>, s: Bytes)
    requires |s| <= buffer.Length
    modifies buffer
    ensures buffer[..] == s + old(buffer[..])[|s|..]
  {
    ghost var before := buffer[..];
    for i := 0 to |s|
      invariant forall j :: 0 <= j < i ==> buffer[j] == s[j]
      invariant forall j :: i <= j < buffer.Length ==> buffer[j] == before[j]
    {
      buffer[i] := s[i];
    }
  }

  lemma Filled(got: Bytes, stale: Bytes, n: nat)
    requires |stale| == n
    ensures |got| < n ==> got[..|got|] + stale[|got|..] == got + stale[|got|..]
    ensures |got| >= n ==> got[..n] + stale[n..] == got[..n]
  {}

  /** Receives a data segment into `buffer`, discarding the padding. */
  method RecvPDUData(connection: Connection, buffer: array<bv8>) returns (error: bool)
    requires connection.Valid()
    modifies connection.socket`cursor, buffer
    ensures connection.Valid()
    ensures var r := ReadData(connection.socket.input, old(connection.socket.cursor), old(buffer[..]),
                              connection.useDataDigest);
            connection.socket.cursor == r.next && buffer[..] == r.data && error == !r.ok
  {
    hide DigestWord, Crc32c, Available, StatusAcknowledged, WireBytes;
    var n := buffer.Length;
    var paddingLen := 4 - n % 4;
    if paddingLen == 4 {
      paddingLen := 0;
    }
    var got := connection.socket.Receive(n + paddingLen + if connection.useDataDigest then 4 else 0);
    var filled := if |got| < n then |got| else n;
    ghost var stale := buffer[..];
    Filled(got, stale, n);
    CopyInto(buffer, got[..filled]);
    var digest := DigestWord(if |got| < n + paddingLen then [] else got[n + paddingLen..]);
    if connection.useDataDigest {
      var calculated := Crc32c(0, buffer[..]);
      if digest != calculated {
        return true;
      }
    }
    return false;
  }

  /** One incoming PDU, as far as it moves the stream: the header, then what its handler reads. */
  method ProcessIncoming(session: Session, connection: Connection, taskKnown: bool)
    returns (error: bool, header: Header)
    requires session.Valid() && connection.Valid()
    modifies session`maxCmdSN, session`expCmdSN
    modifies connection`expStatSN, connection`traffic, connection.socket`cursor
    ensures session.Valid() && connection.Valid()
    ensures connection.socket.cursor ==
            AfterHandling(connection.socket.input, old(connection.socket.cursor),
                          connection.useHeaderDigest, connection.useDataDigest, taskKnown)
    ensures var r := ReadHeader(connection.socket.input, old(connection.socket.cursor), connection.useHeaderDigest);
            error == r.Rejected? && (!error ==> header == r.header)
    ensures Numbers(session, connection) ==
            if error then old(Numbers(session, connection)) else NextNumbers(header, old(Numbers(session, connection)))
  {
    hide NextNumbers, ReadHeader, ReadData, Word, DataLength, StatusAcknowledged, WireBytes, CommandsNumbered;
    error, header := RecvPDUHeader(session, connection);
    if error {
      return;
    }
    var length := DataLength(header);
    var op := header[0];
    if op == OP_SCSI_RSP {
      if length > 0 {
        var _ := Discard(connection, length);
      }
      if !taskKnown {
        var _ := Discard(connection, length);
      }
    } else if op == OP_DATA_IN || op == OP_ASYNC_MSG || op == OP_NOP_IN || op == OP_REJECT {
      if length > 0 {
        var _ := Discard(connection, length);
      }
    }
  }

  /** Reads a data segment into a zeroed buffer of its length. */
  method Discard(connection: Connection, length: nat) returns (error: bool)
    requires connection.Valid()
    modifies connection.socket`cursor
    ensures connection.Valid()
    ensures connection.socket.cursor ==
            ReadData(connection.socket.input, old(connection.socket.cursor), Zeros(length),
                     connection.useDataDigest).next
  {
    hide ReadData;
    var buffer := new bv8[length](_ => 0);
    assert buffer[..] == Zeros(length);
    error := RecvPDUData(connection, buffer);
  }
}
