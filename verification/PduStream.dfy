/** The byte stream of a connection: how a PDU is laid out, how it is read back, and what the
  digests catch. */
module PduStream {
  import opened Crc32cSpec
  import opened Crc32cEngine
  import opened BurstErrors
  import opened PduHeader

  datatype Pdu = Pdu(header: Header, data: Bytes)

  /** The header's length field describes the data segment. */
  predicate WellFormed(p: Pdu) {
    DataLength(p.header) == |p.data|
  }

  // ----- Layout

  function PaddingLength(n: nat): nat {
    var padding := 4 - n % 4;
    if padding == 4 then 0 else padding
  }

  /** The padding is the shortest that fills the last word. */
  lemma PaddingFillsWord(n: nat)
    ensures PaddingLength(n) < 4 && (n + PaddingLength(n)) % 4 == 0
  {}

  function Digest(use: bool, s: Bytes): Bytes {
    if use then DigestBytes(Crc32c(0, s)) else []
  }

  function DataPart(data: Bytes, dataDigest: bool): Bytes {
    if data == [] then [] else data + Zeros(PaddingLength(|data|)) + Digest(dataDigest, data)
  }

  function PduBytes(p: Pdu, headerDigest: bool, dataDigest: bool): Bytes {
    p.header + Digest(headerDigest, p.header) + DataPart(p.data, dataDigest)
  }

  function StreamBytes(ps: seq<Pdu>, headerDigest: bool, dataDigest: bool): Bytes
    decreases |ps|
  {
    if ps == [] then []
    else PduBytes(ps[0], headerDigest, dataDigest) + StreamBytes(ps[1..], headerDigest, dataDigest)
  }

  // ----- Reading

  /** What a blocking read of `n` bytes returns: fewer only when the stream runs dry. */
  function Available(input: Bytes, at: nat, n: nat): Bytes
    requires at <= |input|
  {
    if at + n <= |input| then input[at..at + n] else input[at..]
  }

  /** A digest word into which `s` was received; bytes that did not arrive stay zero. */
  function DigestWord(s: Bytes): bv32 {
    var t := s + Zeros(4);
    Xor(Xor(Xor(Wide(t[0]), Place1(Wide(t[1]))), Place2(Wide(t[2]))), Place3(Wide(t[3])))
  }

  datatype HeaderRead =
    | Rejected(next: nat)
    | Accepted(header: Header, next: nat)

  /** A received digest word of zero is not compared. */
  function ReadHeader(input: Bytes, at: nat, headerDigest: bool): (r: HeaderRead)
    requires at <= |input|
    ensures at <= r.next <= |input|
  {
    var got := Available(input, at, HEADER_SIZE + if headerDigest then 4 else 0);
    if |got| < HEADER_SIZE then Rejected(at + |got|)
    else
      var digest := DigestWord(got[HEADER_SIZE..]);
      if digest != 0 && digest != Crc32c(0, got[..HEADER_SIZE]) then Rejected(at + |got|)
      else Accepted(got[..HEADER_SIZE], at + |got|)
  }

  datatype DataRead = DataRead(ok: bool, data: Bytes, next: nat)

  /** Reads into a buffer that held `stale`; a short read leaves the rest of it in place. */
  function ReadData(input: Bytes, at: nat, stale: Bytes, dataDigest: bool): (r: DataRead)
    requires at <= |input|
    ensures at <= r.next <= |input| && |r.data| == |stale|
  {
    var n := |stale|;
    var padded := n + PaddingLength(n);
    var got := Available(input, at, padded + if dataDigest then 4 else 0);
    var data := if |got| < n then got + stale[|got|..] else got[..n];
    var digest := DigestWord(if |got| < padded then [] else got[padded..]);
    DataRead(!dataDigest || digest == Crc32c(0, data), data, at + |got|)
  }

  datatype PdusRead = Failed | Read(pdus: seq<Pdu>, next: nat)

  /** Reads `count` PDUs header-then-data; the data segment is read only when there is one. */
  function ReadPdus(input: Bytes, at: nat, count: nat, headerDigest: bool, dataDigest: bool): PdusRead
    requires at <= |input|
    decreases count
  {
    if count == 0 then Read([], at)
    else match ReadHeader(input, at, headerDigest)
      case Rejected(_) => Failed
      case Accepted(h, next) =>
        var n := DataLength(h);
        var d := if n == 0 then DataRead(true, [], next) else ReadData(input, next, Zeros(n), dataDigest);
        if !d.ok then Failed
        else match ReadPdus(input, d.next, count - 1, headerDigest, dataDigest)
          case Failed => Failed
          case Read(ps, end) => Read([Pdu(h, d.data)] + ps, end)
  }

  // ----- Round trip

  lemma DigestWordOfBytes(d: bv32)
    ensures DigestWord(DigestBytes(d)) == d
  {
    hide Xor, Wide, Place1, Place2, Place3, Byte0, Byte1, Byte2, Byte3;
    ReassembleWord(d);
  }

  lemma DigestWordEmpty()
    ensures DigestWord([]) == 0
  {
    assert Wide(0) == 0 && Place1(0) == 0 && Place2(0) == 0 && Place3(0) == 0;
    assert Zeros(4) == [0, 0, 0, 0];
  }

  lemma AvailableMiddle(pre: Bytes, s: Bytes, rest: Bytes)
    ensures Available(pre + s + rest, |pre|, |s|) == s
  {}

  lemma HeaderReadsBack(pre: Bytes, h: Header, rest: Bytes, headerDigest: bool)
    ensures ReadHeader(pre + (h + Digest(headerDigest, h)) + rest, |pre|, headerDigest) ==
            Accepted(h, |pre| + HEADER_SIZE + |Digest(headerDigest, h)|)
  {
    hide DigestWord, Crc32c, Available, DigestBytes;
    var s := h + Digest(headerDigest, h);
    AvailableMiddle(pre, s, rest);
    assert s[..HEADER_SIZE] == h && s[HEADER_SIZE..] == Digest(headerDigest, h);
    DigestWordOfBytes(Crc32c(0, h));
    DigestWordEmpty();
  }

  lemma DataReadsBack(pre: Bytes, data: Bytes, rest: Bytes, stale: Bytes, dataDigest: bool)
    requires data != [] && |stale| == |data|
    ensures ReadData(pre + DataPart(data, dataDigest) + rest, |pre|, stale, dataDigest) ==
            DataRead(true, data, |pre| + |DataPart(data, dataDigest)|)
  {
    hide DigestWord, Crc32c, Available, DigestBytes, PaddingLength;
    var s := DataPart(data, dataDigest);
    var padded := |data| + PaddingLength(|data|);
    AvailableMiddle(pre, s, rest);
    assert s[..|data|] == data && s[padded..] == Digest(dataDigest, data);
    DigestWordOfBytes(Crc32c(0, data));
  }

  /** One intact PDU is read back, and reading goes on behind it. */
  lemma PduReadsBack(pre: Bytes, p: Pdu, rest: Bytes, count: nat, hd: bool, dd: bool)
    requires WellFormed(p) && count > 0
    ensures var input := pre + PduBytes(p, hd, dd) + rest;
            var next := |pre| + |PduBytes(p, hd, dd)|;
            ReadPdus(input, |pre|, count, hd, dd) ==
            match ReadPdus(input, next, count - 1, hd, dd)
            case Failed => Failed
            case Read(ps, end) => Read([p] + ps, end)
  {
    hide ReadHeader, ReadData, DataPart, Digest, DataLength;
    var front, part := p.header + Digest(hd, p.header), DataPart(p.data, dd);
    var input := pre + PduBytes(p, hd, dd) + rest;
    assert input == pre + front + (part + rest);
    HeaderReadsBack(pre, p.header, part + rest, hd);
    EmptyDataPart(dd);
    if p.data != [] {
      assert input == (pre + front) + part + rest;
      DataReadsBack(pre + front, p.data, rest, Zeros(|p.data|), dd);
    }
  }

  lemma {:induction false} ReadPdusAt(pre: Bytes, ps: seq<Pdu>, rest: Bytes, hd: bool, dd: bool)
    requires forall p :: p in ps ==> WellFormed(p)
    ensures ReadPdus(pre + StreamBytes(ps, hd, dd) + rest, |pre|, |ps|, hd, dd) ==
            Read(ps, |pre| + |StreamBytes(ps, hd, dd)|)
    decreases |ps|
  {
    hide ReadPdus, PduBytes, WellFormed;
    if ps == [] {
      ReadNothing(pre + [] + rest, |pre|, hd, dd);
    } else {
      var s, tail := PduBytes(ps[0], hd, dd), StreamBytes(ps[1..], hd, dd);
      var input := pre + StreamBytes(ps, hd, dd) + rest;
      assert input == pre + s + (tail + rest);
      PduReadsBack(pre, ps[0], tail + rest, |ps|, hd, dd);
      assert input == (pre + s) + tail + rest;
      ReadPdusAt(pre + s, ps[1..], rest, hd, dd);
      assert [ps[0]] + ps[1..] == ps;
    }
  }

  lemma ReadNothing(input: Bytes, at: nat, hd: bool, dd: bool)
    requires at <= |input|
    ensures ReadPdus(input, at, 0, hd, dd) == Read([], at)
  {}

  lemma EmptyDataPart(dd: bool)
    ensures DataPart([], dd) == []
  {}

  lemma {:induction false} ReadsWellFormed(input: Bytes, at: nat, count: nat, hd: bool, dd: bool)
    requires at <= |input| && ReadPdus(input, at, count, hd, dd).Read?
    ensures forall p :: p in ReadPdus(input, at, count, hd, dd).pdus ==> WellFormed(p)
    decreases count
  {
    hide DataLength, ReadHeader, ReadData;
    if count > 0 {
      var h := ReadHeader(input, at, hd);
      var n := DataLength(h.header);
      var d := if n == 0 then DataRead(true, [], h.next) else ReadData(input, h.next, Zeros(n), dd);
      ReadsWellFormed(input, d.next, count - 1, hd, dd);
    }
  }

  /** A sequence of PDUs is recovered exactly, whatever follows it, with the reading stopped on its
    last byte, if and only if every header describes its data. */
  lemma StreamRoundTrip(ps: seq<Pdu>, rest: Bytes, hd: bool, dd: bool)
    ensures ReadPdus(StreamBytes(ps, hd, dd) + rest, 0, |ps|, hd, dd) == Read(ps, |StreamBytes(ps, hd, dd)|) <==>
            forall p :: p in ps ==> WellFormed(p)
  {
    hide ReadPdus, StreamBytes, WellFormed;
    if forall p :: p in ps ==> WellFormed(p) {
      ReadPdusAt([], ps, rest, hd, dd);
      assert [] + StreamBytes(ps, hd, dd) + rest == StreamBytes(ps, hd, dd) + rest;
    }
    var r := ReadPdus(StreamBytes(ps, hd, dd) + rest, 0, |ps|, hd, dd);
    if r == Read(ps, |StreamBytes(ps, hd, dd)|) {
      ReadsWellFormed(StreamBytes(ps, hd, dd) + rest, 0, |ps|, hd, dd);
    }
  }

  /** PDUs occupy whole 4-byte words. */
  lemma {:induction false} StreamAligned(ps: seq<Pdu>, hd: bool, dd: bool)
    ensures |StreamBytes(ps, hd, dd)| % 4 == 0
    decreases |ps|
  {
    hide PduBytes;
    if ps != [] {
      StreamAligned(ps[1..], hd, dd);
      PduAligned(ps[0], hd, dd);
    }
  }

  lemma PduAligned(p: Pdu, hd: bool, dd: bool)
    ensures |PduBytes(p, hd, dd)| % 4 == 0
  {
    hide DigestBytes, Crc32c;
    PaddingFillsWord(|p.data|);
  }

  lemma {:induction false} StreamConcat(ps: seq<Pdu>, qs: seq<Pdu>, hd: bool, dd: bool)
    ensures StreamBytes(ps + qs, hd, dd) == StreamBytes(ps, hd, dd) + StreamBytes(qs, hd, dd)
    decreases |ps|
  {
    hide PduBytes;
    if ps == [] {
      assert ps + qs == qs;
    } else {
      assert (ps + qs)[1..] == ps[1..] + qs;
      StreamConcat(ps[1..], qs, hd, dd);
    }
  }

  // ----- What the digests catch

  lemma AnyDigestBytes(s: Bytes)
    requires |s| == 4
    ensures DigestBytes(DigestWord(s)) == s
  {
    hide Xor, Wide, Place1, Place2, Place3, Byte0, Byte1, Byte2, Byte3;
    var t := s + Zeros(4);
    SplitWord(t[0], t[1], t[2], t[3]);
  }

  lemma SplitWord(a: bv8, b: bv8, c: bv8, d: bv8)
    ensures var x := Xor(Xor(Xor(Wide(a), Place1(Wide(b))), Place2(Wide(c))), Place3(Wide(d)));
            Byte0(x) == a && Byte1(x) == b && Byte2(x) == c && Byte3(x) == d
  {}

  /** A header hit by a burst of at most 32 bits, its digest included, is accepted if and only if
    the digest word that arrives is zero (then it is not compared) or nothing changed. */
  lemma HeaderBurst(h: Header, got: Bytes, pre: Bytes, rest: Bytes, at: nat, width: nat)
    requires |got| == HEADER_SIZE + 4 && width <= 32
    requires DifferInWindow(h + Digest(true, h), got, at, width)
    ensures ReadHeader(pre + got + rest, |pre|, true).Accepted? <==>
            got == h + Digest(true, h) || got[HEADER_SIZE..] == Zeros(4)
  {
    hide DigestWord, Crc32c, Available, DigestBytes, DifferInWindow;
    var h', d' := got[..HEADER_SIZE], DigestWord(got[HEADER_SIZE..]);
    AvailableMiddle(pre, got, rest);
    AnyDigestBytes(got[HEADER_SIZE..]);
    assert got == h' + DigestBytes(d');
    CheckedMessageBurst(h, h', d', at, width);
    ZeroDigest(got[HEADER_SIZE..]);
  }

  lemma ZeroDigest(s: Bytes)
    requires |s| == 4
    ensures DigestWord(s) == 0 <==> s == Zeros(4)
  {
    hide DigestWord, DigestBytes;
    AnyDigestBytes(s);
    AnyDigestBytes(Zeros(4));
    ZeroWord();
  }

  lemma ZeroWord()
    ensures DigestWord(Zeros(4)) == 0
  {
    assert Wide(0) == 0 && Place1(0) == 0 && Place2(0) == 0 && Place3(0) == 0;
    assert Zeros(4) + Zeros(4) == [0, 0, 0, 0, 0, 0, 0, 0];
  }

  /** A data segment hit by a burst of at most 32 bits, its digest included, is accepted if and
    only if nothing changed; the padding is not covered, so any padding is accepted. */
  lemma DataBurst(data: Bytes, data': Bytes, padding: Bytes, digest': Bytes, pre: Bytes, rest: Bytes,
                  stale: Bytes, at: nat, width: nat)
    requires |data| == |data'| == |stale| && |padding| == PaddingLength(|data|) && |digest'| == 4
    requires width <= 32 && DifferInWindow(data + Digest(true, data), data' + digest', at, width)
    ensures ReadData(pre + (data' + padding + digest') + rest, |pre|, stale, true).ok <==>
            data' == data && digest' == Digest(true, data)
  {
    hide DigestWord, Crc32c, Available, DigestBytes, DifferInWindow, PaddingLength;
    var s := data' + padding + digest';
    AvailableMiddle(pre, s, rest);
    assert s[..|data|] == data' && s[|data| + |padding|..] == digest';
    AnyDigestBytes(digest');
    CheckedMessageBurst(data, data', DigestWord(digest'), at, width);
  }

  // ----- Where the receive handlers leave the stream

  /** The position after the handler of a PDU type has read what it reads of `n` bytes of data. */
  function AfterBody(input: Bytes, at: nat, op: bv8, n: nat, dd: bool, taskKnown: bool): (next: nat)
    requires at <= |input|
    ensures at <= next <= |input|
  {
    var once := if n == 0 then at else ReadData(input, at, Zeros(n), dd).next;
    if op == OP_SCSI_RSP then
      if taskKnown then once else ReadData(input, once, Zeros(n), dd).next
    else if op in {OP_DATA_IN, OP_ASYNC_MSG, OP_NOP_IN, OP_REJECT} then once
    else at
  }

  /** The position after one incoming PDU has been handled: which handlers read the data segment,
    and the SCSI response for an unknown task, which reads it twice. */
  function AfterHandling(input: Bytes, at: nat, hd: bool, dd: bool, taskKnown: bool): (next: nat)
    requires at <= |input|
    ensures at <= next <= |input|
  {
    match ReadHeader(input, at, hd)
    case Rejected(next) => next
    case Accepted(h, next) => AfterBody(input, next, h[0], DataLength(h), dd, taskKnown)
  }

  /** The handler of the PDU reads exactly its data: it reads data at all, or there is none, and it does
    not read a second time, or there is nothing left to read. */
  predicate ReadWhole(p: Pdu, dd: bool, taskKnown: bool, atEnd: bool) {
    if p.header[0] == 0x21 then taskKnown || (p.data == [] && !dd) || atEnd
    else p.header[0] in {0x20, 0x25, 0x32, 0x3f} || p.data == []
  }

  /** Handling an intact PDU leaves the stream on the next PDU, except exactly: a SCSI response for
    an unknown task that has a data segment or a data digest to re-read while more bytes follow,
    and data carried by a PDU type whose handler reads none. */
  lemma StaysOnBoundary(pre: Bytes, p: Pdu, rest: Bytes, hd: bool, dd: bool, taskKnown: bool)
    requires WellFormed(p)
    ensures (AfterHandling(pre + PduBytes(p, hd, dd) + rest, |pre|, hd, dd, taskKnown) ==
             |pre| + |PduBytes(p, hd, dd)|)
            <==> ReadWhole(p, dd, taskKnown, rest == [])
  {
    hide ReadHeader, ReadData, DataPart, Digest, DataLength;
    var front, part := p.header + Digest(hd, p.header), DataPart(p.data, dd);
    var input := pre + PduBytes(p, hd, dd) + rest;
    assert input == pre + front + (part + rest);
    HeaderReadsBack(pre, p.header, part + rest, hd);
    EmptyDataPart(dd);
    if p.data != [] {
      assert input == (pre + front) + part + rest;
      DataReadsBack(pre + front, p.data, rest, Zeros(|p.data|), dd);
      assert part != [] by { NonEmptyDataPart(p.data, dd); }
    }
    SecondRead(input, |pre| + |front| + |part|, Zeros(|p.data|), dd);
    assert |input| == |pre| + |front| + |part| + |rest|;
  }

  lemma NonEmptyDataPart(data: Bytes, dd: bool)
    requires data != []
    ensures |DataPart(data, dd)| >= |data| > 0
  {}

  lemma SecondRead(input: Bytes, at: nat, stale: Bytes, dd: bool)
    requires at <= |input|
    ensures ReadData(input, at, stale, dd).next == at <==> at == |input| || (stale == [] && !dd)
  {
    hide DigestWord, Crc32c;
  }

  /** From `at` on the input holds the PDUs, and something else behind them. */
  ghost predicate Arrives(input: Bytes, at: nat, ps: seq<Pdu>, rest: Bytes, hd: bool, dd: bool) {
    at <= |input| && input[at..] == StreamBytes(ps, hd, dd) + rest
  }

  /** The next PDU is the one whose header is read, and behind it the others arrive. */
  lemma ArrivesNext(input: Bytes, at: nat, ps: seq<Pdu>, rest: Bytes, hd: bool, dd: bool, taskKnown: bool)
    requires Arrives(input, at, ps, rest, hd, dd) && ps != [] && WellFormed(ps[0])
    requires ReadWhole(ps[0], dd, taskKnown, |ps| == 1 && rest == [])
    ensures var r := ReadHeader(input, at, hd); r.Accepted? && r.header == ps[0].header
    ensures Arrives(input, AfterHandling(input, at, hd, dd, taskKnown), ps[1..], rest, hd, dd)
  {
    hide ReadHeader, AfterHandling, WellFormed, ReadWhole, DataPart, Digest, StreamBytes;
    var p, pre := ps[0], input[..at];
    var behind := StreamBytes(ps[1..], hd, dd) + rest;
    StreamUnfold(ps, hd, dd);
    assert input == pre + PduBytes(p, hd, dd) + behind;
    var part := DataPart(p.data, dd) + behind;
    assert input == pre + (p.header + Digest(hd, p.header)) + part;
    HeaderReadsBack(pre, p.header, part, hd);
    NothingBehind(ps[1..], rest, hd, dd);
    StaysOnBoundary(pre, p, behind, hd, dd, taskKnown);
    assert (pre + PduBytes(p, hd, dd) + behind)[|pre| + |PduBytes(p, hd, dd)|..] == behind;
  }

  lemma StreamUnfold(ps: seq<Pdu>, hd: bool, dd: bool)
    ensures ps != [] ==> StreamBytes(ps, hd, dd) == PduBytes(ps[0], hd, dd) + StreamBytes(ps[1..], hd, dd)
  {
    hide PduBytes;
  }

  lemma NothingBehind(ps: seq<Pdu>, rest: Bytes, hd: bool, dd: bool)
    ensures StreamBytes(ps, hd, dd) + rest == [] <==> ps == [] && rest == []
  {
    hide DataPart, Digest;
  }
}
