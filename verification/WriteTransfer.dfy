/** Moving the data of a SCSI write: immediate data, unsolicited Data-Out and solicited Data-Out,
  and the proof that they send every byte of the buffer once. */
module WriteTransfer {
  import opened Words
  import opened Crc32cSpec
  import opened PduHeader
  import opened PduStream
  import opened Transport

  datatype Direction = NoTransfer | FromTarget | ToTarget

  const READ_FLAG: bv8 := 0x40
  const WRITE_FLAG: bv8 := 0x20

  function Min(a: u32, b: u32): u32 { if a < b then a else b }

  function Plus64(a: u64, b: nat): u64 { (a + b) % 0x1_0000_0000_0000_0000 }

  function Minus64(a: u64, b: nat): u64 { (a - b) % 0x1_0000_0000_0000_0000 }

  /** The counters are exact as long as they stay in range, and subtracting undoes adding in any case. */
  lemma CountersExact(d: u64, n: nat)
    ensures n <= d ==> Minus64(d, n) == d - n
    ensures d + n < 0x1_0000_0000_0000_0000 ==> Plus64(d, n) == d + n
    ensures Minus64(Plus64(d, n), n) == d
  {
    var q := (d + n) / 0x1_0000_0000_0000_0000;
    assert Plus64(d, n) - n == d - q * 0x1_0000_0000_0000_0000;
    SameRemainder(d, q);
  }

  const ATTRIBUTE_BITS: bv8 := 0x07

  /** A SCSI task as the driver stack hands it over; `attribute` is the three-bit task attribute. */
  class Task {
    const tag: Bytes
    const lun: Bytes
    const cdb: Bytes
    const attribute: bv8
    const direction: Direction
    const buffer: Bytes
    var realized: nat

    ghost predicate Valid() {
      |tag| == 4 && |lun| == 8 && |cdb| == 16 && |buffer| < 0x1_0000_0000 && attribute <= ATTRIBUTE_BITS
    }

    constructor (tag: Bytes, lun: Bytes, cdb: Bytes, attribute: bv8, direction: Direction, buffer: Bytes)
      requires |tag| == 4 && |lun| == 8 && |cdb| == 16 && |buffer| < 0x1_0000_0000 && attribute <= ATTRIBUTE_BITS
      ensures Valid() && realized == 0
    {
      this.tag, this.lun, this.cdb, this.attribute := tag, lun, cdb, attribute;
      this.direction, this.buffer, realized := direction, buffer, 0;
    }
  }

  // ----- Headers

  /** What all Data-Out PDUs of one transfer share. */
  datatype Transfer = Transfer(lun: Bytes, tag: Bytes, transferTag: Bytes, buffer: Bytes, limit: u32, expStatSN: u32) {
    ghost predicate Valid() {
      |lun| == 8 && |tag| == 4 && |transferTag| == 4
    }
  }

  function Start(k: nat, limit: nat): nat { k * limit }

  lemma StartNext(k: nat, limit: nat)
    ensures Start(k + 1, limit) == Start(k, limit) + limit && Start(0, limit) == 0
  {}

  function DataOutHeader(lun: Bytes, tag: Bytes, transferTag: Bytes, offset: u32, dataSN: u32, final: bool): Header
    requires |lun| == 8 && |tag| == 4 && |transferTag| == 4
  {
    var h0: Header := [OP_DATA_OUT, if final then FINAL else 0] + Zeros(46);
    var h1 := Put(Put(Put(h0, LUN, lun), TASK_TAG, tag), TRANSFER_TAG, transferTag);
    PutWord(PutWord(h1, BUFFER_OFFSET, offset), DATA_SN, dataSN)
  }

  function CommandFlags(direction: Direction, attribute: bv8, final: bool): bv8 {
    attribute
    | (match direction case ToTarget => WRITE_FLAG case FromTarget => READ_FLAG case NoTransfer => 0)
    | (if final then FINAL else 0)
  }

  function CommandHeader(lun: Bytes, tag: Bytes, cdb: Bytes, flags: bv8, transferLength: u32): Header
    requires |lun| == 8 && |tag| == 4 && |cdb| == 16
  {
    var h0: Header := [OP_SCSI_CMD, flags] + Zeros(46);
    Put(PutWord(Put(Put(h0, LUN, lun), TASK_TAG, tag), TRANSFER_LENGTH, transferLength), CDB, cdb)
  }

  lemma StampDataOut(h: Header, cmdSN: u32, expStatSN: u32, length: u32)
    requires IsDataOut(h)
    ensures Stamp(h, cmdSN, expStatSN, length) == Stamp(h, 0, expStatSN, length)
  {}

  // ----- Headers on the wire

  lemma DataOutLayout(lun: Bytes, tag: Bytes, transferTag: Bytes, offset: u32, dataSN: u32, final: bool)
    requires |lun| == 8 && |tag| == 4 && |transferTag| == 4
    ensures DataOutHeader(lun, tag, transferTag, offset, dataSN, final) ==
            [OP_DATA_OUT, if final then FINAL else 0] + Zeros(6) + lun + tag + transferTag + Zeros(12)
              + Le32(Swap32(dataSN)) + Le32(Swap32(offset)) + Zeros(4)
  {
    hide Put, Le32, Swap32;
    var f: Bytes, o, d := [OP_DATA_OUT, if final then FINAL else 0], Le32(Swap32(offset)), Le32(Swap32(dataSN));
    assert f + Zeros(46) == (f + Zeros(6)) + Zeros(8) + Zeros(32);
    PutBetween(f + Zeros(6), Zeros(8), Zeros(32), lun);
    var a := f + Zeros(6) + lun;
    assert a + Zeros(32) == a + Zeros(4) + Zeros(28);
    PutBetween(a, Zeros(4), Zeros(28), tag);
    assert a + tag + Zeros(28) == (a + tag) + Zeros(4) + Zeros(24);
    PutBetween(a + tag, Zeros(4), Zeros(24), transferTag);
    var b := a + tag + transferTag;
    assert b + Zeros(24) == (b + Zeros(16)) + Zeros(4) + Zeros(4);
    PutBetween(b + Zeros(16), Zeros(4), Zeros(4), o);
    assert b + Zeros(16) + o + Zeros(4) == (b + Zeros(12)) + Zeros(4) + (o + Zeros(4));
    PutBetween(b + Zeros(12), Zeros(4), o + Zeros(4), d);
    assert b + Zeros(12) + d + (o + Zeros(4)) == b + Zeros(12) + d + o + Zeros(4);
  }

  lemma DataOutSlices(h: Header, lun: Bytes, tag: Bytes, transferTag: Bytes, offset: Bytes, dataSN: Bytes, flags: bv8)
    requires |lun| == 8 && |tag| == |transferTag| == |offset| == |dataSN| == 4
    requires h == [OP_DATA_OUT, flags] + Zeros(6) + lun + tag + transferTag + Zeros(12) + dataSN + offset + Zeros(4)
    ensures h[0] == 0x05 && h[1] == flags && h[2..5] == Zeros(3)
    ensures h[8..16] == lun && h[16..20] == tag && h[20..24] == transferTag && h[24..28] == Zeros(4)
    ensures h[32..36] == Zeros(4) && h[36..40] == dataSN && h[40..44] == offset && h[44..] == Zeros(4)
  {}

  /** A Data-Out as it is sent, byte for byte but for its length field. */
  lemma DataOutOnWire(x: Transfer, offset: u32, dataSN: u32, final: bool, cmdSN: u32, length: u32)
    requires x.Valid()
    ensures var s := Stamp(DataOutHeader(x.lun, x.tag, x.transferTag, offset, dataSN, final), cmdSN, x.expStatSN, length);
            && s[0] == 0x05 && s[1] == (if final then 0x80 else 0x00) && s[2..5] == Zeros(3)
            && s[8..16] == x.lun && s[16..20] == x.tag && s[20..24] == x.transferTag && s[24..28] == Zeros(4)
            && BigEndian(s[28..32]) == x.expStatSN && s[32..36] == Zeros(4)
            && BigEndian(s[36..40]) == dataSN && BigEndian(s[40..44]) == offset && s[44..] == Zeros(4)
  {
    hide DataOutHeader, Stamp, BigEndian, ByteOf, Le32, Swap32;
    var h := DataOutHeader(x.lun, x.tag, x.transferTag, offset, dataSN, final);
    DataOutLayout(x.lun, x.tag, x.transferTag, offset, dataSN, final);
    DataOutSlices(h, x.lun, x.tag, x.transferTag, Le32(Swap32(offset)), Le32(Swap32(dataSN)),
                  if final then FINAL else 0);
    StampOnWire(h, cmdSN, x.expStatSN, length);
    TailSlices(h, Stamp(h, cmdSN, x.expStatSN, length));
    StoredBigEndian(offset);
    StoredBigEndian(dataSN);
  }

  lemma DataOutFields(x: Transfer, offset: u32, dataSN: u32, final: bool, cmdSN: u32, length: u32)
    requires x.Valid()
    ensures var h := DataOutHeader(x.lun, x.tag, x.transferTag, offset, dataSN, final);
            h[0] == OP_DATA_OUT && Stamp(h, cmdSN, x.expStatSN, length) == Stamp(h, 0, x.expStatSN, length)
    ensures var s := Stamp(DataOutHeader(x.lun, x.tag, x.transferTag, offset, dataSN, final), 0, x.expStatSN, length);
            && s[0] == OP_DATA_OUT && s[FLAGS] == (if final then FINAL else 0)
            && Word(s, BUFFER_OFFSET) == offset && Word(s, DATA_SN) == dataSN
  {
    hide DataOutHeader, Stamp, Word, BigEndian;
    var h := DataOutHeader(x.lun, x.tag, x.transferTag, offset, dataSN, final);
    var s := Stamp(h, 0, x.expStatSN, length);
    DataOutLayout(x.lun, x.tag, x.transferTag, offset, dataSN, final);
    StampDataOut(h, cmdSN, x.expStatSN, length);
    DataOutOnWire(x, offset, dataSN, final, 0, length);
    WordIsBigEndian(s, BUFFER_OFFSET);
    WordIsBigEndian(s, DATA_SN);
  }

  lemma CommandLayout(lun: Bytes, tag: Bytes, cdb: Bytes, flags: bv8, transferLength: u32)
    requires |tag| == 4 && |lun| == 8 && |cdb| == 16
    ensures CommandHeader(lun, tag, cdb, flags, transferLength) ==
            [OP_SCSI_CMD, flags] + Zeros(6) + lun + tag + Le32(Swap32(transferLength)) + Zeros(8) + cdb
  {
    hide Put, Le32, Swap32;
    var f: Bytes, n := [OP_SCSI_CMD, flags], Le32(Swap32(transferLength));
    assert f + Zeros(46) == (f + Zeros(6)) + Zeros(8) + Zeros(32);
    PutBetween(f + Zeros(6), Zeros(8), Zeros(32), lun);
    var a := f + Zeros(6) + lun;
    assert a + Zeros(32) == a + Zeros(4) + Zeros(28);
    PutBetween(a, Zeros(4), Zeros(28), tag);
    assert a + tag + Zeros(28) == (a + tag) + Zeros(4) + Zeros(24);
    PutBetween(a + tag, Zeros(4), Zeros(24), n);
    assert a + tag + n + Zeros(24) == (a + tag + n + Zeros(8)) + Zeros(16) + [];
    PutBetween(a + tag + n + Zeros(8), Zeros(16), [], cdb);
  }

  lemma CommandSlices(h: Header, lun: Bytes, tag: Bytes, cdb: Bytes, flags: bv8, transferLength: Bytes)
    requires |tag| == |transferLength| == 4 && |lun| == 8 && |cdb| == 16
    requires h == [OP_SCSI_CMD, flags] + Zeros(6) + lun + tag + transferLength + Zeros(8) + cdb
    ensures h[0] == 0x01 && h[1] == flags && h[2..5] == Zeros(3)
    ensures h[8..16] == lun && h[16..20] == tag && h[20..24] == transferLength && h[32..] == cdb
  {}

  /** A SCSI command as it is sent, byte for byte but for its flags and its length field. */
  lemma CommandOnWire(lun: Bytes, tag: Bytes, cdb: Bytes, flags: bv8, transferLength: u32, cmdSN: u32, expStatSN: u32,
                      length: u32)
    requires |tag| == 4 && |lun| == 8 && |cdb| == 16
    ensures var s := Stamp(CommandHeader(lun, tag, cdb, flags, transferLength), cmdSN, expStatSN, length);
            && s[0] == 0x01 && s[1] == flags && s[2..5] == Zeros(3)
            && s[8..16] == lun && s[16..20] == tag && BigEndian(s[20..24]) == transferLength
            && BigEndian(s[24..28]) == cmdSN && BigEndian(s[28..32]) == expStatSN && s[32..] == cdb
  {
    hide CommandHeader, Stamp, BigEndian, ByteOf, Le32, Swap32;
    var h := CommandHeader(lun, tag, cdb, flags, transferLength);
    CommandLayout(lun, tag, cdb, flags, transferLength);
    CommandSlices(h, lun, tag, cdb, flags, Le32(Swap32(transferLength)));
    StampOnWire(h, cmdSN, expStatSN, length);
    TailSlices(h, Stamp(h, cmdSN, expStatSN, length));
    StoredBigEndian(transferLength);
  }

  /** The flags byte: the F bit, the direction, and the task attribute. */
  lemma CommandFlagBits(direction: Direction, attribute: bv8, final: bool)
    requires attribute <= 0x07
    ensures var f := CommandFlags(direction, attribute, final);
            && (f & 0x80 != 0 <==> final)
            && (f & 0x40 != 0 <==> direction == FromTarget) && (f & 0x20 != 0 <==> direction == ToTarget)
            && f & 0x18 == 0 && f & 0x07 == attribute
  {}

  // ----- A run of Data-Out PDUs

  /** `data` is `n` bytes of the buffer from `offset` on, as far as the buffer reaches. */
  ghost predicate Carries(data: Bytes, buffer: Bytes, offset: nat, n: nat) {
    && |data| == n
    && forall i :: 0 <= i < n && offset + i < |buffer| ==> data[i] == buffer[offset + i]
  }

  function PieceLength(k: nat, limit: nat, length: nat): nat
    requires Start(k, limit) <= length
  {
    if length - Start(k, limit) <= limit then length - Start(k, limit) else limit
  }

  /** How much of a transfer its first `k` pieces cover. */
  function SentBy(k: nat, limit: nat, length: nat): nat {
    if Start(k, limit) <= length then Start(k, limit) else length
  }

  lemma SentNext(k: nat, limit: nat, length: nat)
    ensures SentBy(0, limit, length) == 0
    ensures Start(k, limit) < length ==>
              && SentBy(k, limit, length) == Start(k, limit)
              && SentBy(k + 1, limit, length) == Start(k, limit) + PieceLength(k, limit, length)
  {
    hide Start;
    StartNext(k, limit);
  }

  /** The k-th PDU of a transfer of [offset, offset + length); its DataSN counts modulo 2^32. */
  ghost predicate IsPiece(p: Pdu, x: Transfer, offset: u32, length: u32, k: nat)
    requires x.Valid() && Start(k, x.limit) < length
  {
    var n := PieceLength(k, x.limit, length);
    var from := Wrap32(offset + Start(k, x.limit));
    && p.header == Stamp(DataOutHeader(x.lun, x.tag, x.transferTag, from, Wrap32(k),
                                       length - Start(k, x.limit) <= x.limit),
                         0, x.expStatSN, n)
    && Carries(p.data, x.buffer, from, n)
  }

  /** The run consists of the first pieces in order; only its last send may have failed. */
  ghost predicate Pieces(run: seq<Attempt>, x: Transfer, offset: u32, length: u32)
    requires x.Valid()
  {
    forall k :: 0 <= k < |run| ==>
         && Start(k, x.limit) < length
         && IsPiece(run[k].pdu, x, offset, length, k)
         && (k < |run| - 1 ==> run[k].delivered)
  }

  predicate AllDelivered(run: seq<Attempt>) {
    forall k :: 0 <= k < |run| ==> run[k].delivered
  }

  /** Unless a send failed, nothing is left over. */
  ghost predicate Complete(run: seq<Attempt>, x: Transfer, length: nat) {
    AllDelivered(run) ==> Start(|run|, x.limit) >= length
  }

  /** The bytes accounted as transferred. */
  function Amount(run: seq<Attempt>): nat
    decreases |run|
  {
    if run == [] then 0
    else Amount(run[..|run| - 1]) + if run[|run| - 1].delivered then |run[|run| - 1].pdu.data| else 0
  }

  function Headers(run: seq<Attempt>): seq<Header> {
    seq(|run|, i requires 0 <= i < |run| => run[i].pdu.header)
  }

  lemma StartBounds(k: nat, limit: nat)
    requires limit > 0
    ensures k <= Start(k, limit)
  {}

  lemma StartMonotone(j: nat, k: nat, limit: nat)
    requires j <= k
    ensures Start(j, limit) <= Start(k, limit)
  {}

  lemma PiecesPrefix(run: seq<Attempt>, x: Transfer, offset: u32, length: u32)
    requires x.Valid() && Pieces(run, x, offset, length) && run != []
    ensures Pieces(run[..|run| - 1], x, offset, length) && AllDelivered(run[..|run| - 1])
  {
    hide IsPiece, Start;
  }

  lemma PieceSize(p: Pdu, x: Transfer, offset: u32, length: u32, k: nat)
    requires x.Valid() && Start(k, x.limit) < length
    requires IsPiece(p, x, offset, length, k)
    ensures |p.data| == PieceLength(k, x.limit, length)
  {
    hide Start, DataOutHeader, Stamp, PieceLength;
  }

  /** The bytes accounted are exactly the prefix that was sent: all of it, or the pieces before
    the one whose send failed. */
  lemma {:induction false} AmountIsPrefix(run: seq<Attempt>, x: Transfer, offset: u32, length: u32)
    requires x.Valid() && Pieces(run, x, offset, length)
    ensures AllDelivered(run) ==> Amount(run) == SentBy(|run|, x.limit, length)
    ensures !AllDelivered(run) ==> Amount(run) == Start(|run| - 1, x.limit)
    decreases |run|
  {
    hide Start, SentBy, PieceLength, IsPiece;
    SentNext(|run|, x.limit, length);
    if run != [] {
      var k := |run| - 1;
      PiecesPrefix(run, x, offset, length);
      AmountIsPrefix(run[..k], x, offset, length);
      SentNext(k, x.limit, length);
      PieceSize(run[k].pdu, x, offset, length, k);
    }
  }

  function Payload(run: seq<Attempt>): Bytes
    decreases |run|
  {
    if run == [] then [] else Payload(run[..|run| - 1]) + run[|run| - 1].pdu.data
  }

  lemma PieceIsSlice(p: Pdu, x: Transfer, offset: u32, length: u32, k: nat)
    requires x.Valid() && Start(k, x.limit) < length
    requires IsPiece(p, x, offset, length, k)
    requires offset + length <= |x.buffer| < 0x1_0000_0000
    ensures var from := offset + Start(k, x.limit);
            p.data == x.buffer[from..from + PieceLength(k, x.limit, length)]
  {
    hide Start, DataOutHeader, Stamp, Carries;
    var from, n := offset + Start(k, x.limit), PieceLength(k, x.limit, length);
    assert Wrap32(from) == from;
    CarriesSlice(p.data, x.buffer, from, n);
  }

  lemma CarriesSlice(data: Bytes, buffer: Bytes, offset: nat, n: nat)
    requires offset + n <= |buffer| && Carries(data, buffer, offset, n)
    ensures data == buffer[offset..offset + n]
  {}

  lemma SentBounded(k: nat, limit: nat, length: nat)
    ensures SentBy(k, limit, length) <= length
    ensures Start(k, limit) >= length ==> SentBy(k, limit, length) == length
  {}

  lemma {:induction false} PayloadIsSlice(run: seq<Attempt>, x: Transfer, offset: u32, length: u32)
    requires x.Valid() && Pieces(run, x, offset, length)
    requires offset + length <= |x.buffer| < 0x1_0000_0000
    ensures SentBy(|run|, x.limit, length) <= length
    ensures Payload(run) == x.buffer[offset..offset + SentBy(|run|, x.limit, length)]
    decreases |run|
  {
    hide Start, SentBy, PieceLength, IsPiece, Payload;
    SentNext(|run|, x.limit, length);
    SentBounded(|run|, x.limit, length);
    PayloadUnfold(run);
    if run != [] {
      var k := |run| - 1;
      PiecesPrefix(run, x, offset, length);
      PayloadIsSlice(run[..k], x, offset, length);
      SentNext(k, x.limit, length);
      PieceIsSlice(run[k].pdu, x, offset, length, k);
      var from := offset + Start(k, x.limit);
      JoinSlices(x.buffer, offset, from, from + PieceLength(k, x.limit, length));
    }
  }

  lemma PayloadUnfold(run: seq<Attempt>)
    ensures run == [] ==> Payload(run) == []
    ensures run != [] ==> Payload(run) == Payload(run[..|run| - 1]) + run[|run| - 1].pdu.data
  {}

  lemma JoinSlices(s: Bytes, i: nat, j: nat, k: nat)
    requires i <= j <= k <= |s|
    ensures s[i..j] + s[j..k] == s[i..k]
  {}

  function CeilDiv(a: nat, b: nat): nat {
    if b == 0 then 0 else (a + b - 1) / b
  }

  /** A run that sends everything without failing has a segment limit, unless there was nothing to send. */
  lemma DeliveredNeedsLimit(run: seq<Attempt>, x: Transfer, offset: u32, length: u32)
    requires x.Valid() && Pieces(run, x, offset, length) && Complete(run, x, length) && AllDelivered(run)
    ensures x.limit > 0 || length == 0
    ensures length == 0 <==> run == []
  {
    hide IsPiece;
    assert run != [] ==> Start(0, x.limit) < length;
  }

  lemma CountOfPieces(n: nat, limit: nat, length: nat)
    requires limit > 0 && Start(n, limit) >= length
    requires n > 0 ==> Start(n - 1, limit) < length
    ensures n == CeilDiv(length, limit)
  {
    if n > 0 {
      StartNext(n - 1, limit);
      var r := length + limit - 1 - Start(n, limit);
      assert 0 <= r < limit && length + limit - 1 == n * limit + r;
      DivideExactly(n, limit, r);
    } else {
      assert length == 0;
      DivideExactly(0, limit, limit - 1);
    }
  }

  lemma DivideExactly(n: nat, limit: nat, r: nat)
    requires r < limit
    ensures (n * limit + r) / limit == n
  {
    var x := n * limit + r;
    var q := x / limit;
    assert x == q * limit + x % limit;
    if q < n {
      StartMonotone(q + 1, n, limit);
      StartNext(q, limit);
    } else if q > n {
      StartMonotone(n + 1, q, limit);
      StartNext(n, limit);
    }
  }

  /** What the target sees of the k-th PDU: its DataSN is k, it starts where the one before it
    ended, it stays within the limit, and it carries the F bit if and only if it is the last. */
  ghost predicate Tile(p: Pdu, offset: nat, limit: nat, k: nat, last: bool) {
    && p.header[0] == OP_DATA_OUT
    && Word(p.header, BUFFER_OFFSET) == offset + Start(k, limit)
    && Word(p.header, DATA_SN) == k
    && 0 < |p.data| <= limit
    && p.header[FLAGS] == (if last then FINAL else 0)
  }

  lemma PieceIsTile(p: Pdu, x: Transfer, offset: u32, length: u32, k: nat)
    requires x.Valid() && Start(k, x.limit) < length && x.limit > 0
    requires IsPiece(p, x, offset, length, k)
    requires offset + length <= 0x1_0000_0000
    ensures Tile(p, offset, x.limit, k, length <= Start(k + 1, x.limit))
  {
    hide Start, DataOutHeader, Stamp, Word, Carries;
    var n := PieceLength(k, x.limit, length);
    assert Wrap32(offset + Start(k, x.limit)) == offset + Start(k, x.limit);
    StartBounds(k, x.limit);
    DataOutFields(x, Wrap32(offset + Start(k, x.limit)), Wrap32(k), length - Start(k, x.limit) <= x.limit, 0, n);
    CarriesLength(p.data, x.buffer, offset + Start(k, x.limit), n);
    StartNext(k, x.limit);
  }

  lemma CarriesLength(data: Bytes, buffer: Bytes, offset: nat, n: nat)
    requires Carries(data, buffer, offset, n)
    ensures |data| == n
  {}

  lemma PieceInPlace(run: seq<Attempt>, x: Transfer, offset: u32, length: u32, k: nat)
    requires x.Valid() && Pieces(run, x, offset, length) && Complete(run, x, length) && AllDelivered(run)
    requires offset + length <= |x.buffer| < 0x1_0000_0000 && k < |run|
    ensures Tile(run[k].pdu, offset, x.limit, k, k == |run| - 1)
  {
    hide Start, IsPiece, Tile, AllDelivered;
    DeliveredNeedsLimit(run, x, offset, length);
    PieceIsTile(run[k].pdu, x, offset, length, k);
    if k < |run| - 1 {
      StartMonotone(k + 1, |run| - 1, x.limit);
    }
  }

  /** Without send errors a run tiles [offset, offset + length): its payload is that slice of the
    buffer, it has ceil(length / limit) PDUs, and each is in its place. */
  lemma DataOutTiles(run: seq<Attempt>, x: Transfer, offset: u32, length: u32)
    requires x.Valid() && Pieces(run, x, offset, length) && Complete(run, x, length) && AllDelivered(run)
    requires offset + length <= |x.buffer| < 0x1_0000_0000
    ensures Payload(run) == x.buffer[offset..offset + length]
    ensures |run| == if length == 0 then 0 else CeilDiv(length, x.limit)
    ensures Amount(run) == length
    ensures forall k :: 0 <= k < |run| ==> Tile(run[k].pdu, offset, x.limit, k, k == |run| - 1)
  {
    hide Start, IsPiece, Payload, Amount, Tile, CeilDiv, SentBy, AllDelivered;
    SentBounded(|run|, x.limit, length);
    PayloadIsSlice(run, x, offset, length);
    AmountIsPrefix(run, x, offset, length);
    DeliveredNeedsLimit(run, x, offset, length);
    if length > 0 {
      CountOfPieces(|run|, x.limit, length);
    }
    forall k | 0 <= k < |run|
      ensures Tile(run[k].pdu, offset, x.limit, k, k == |run| - 1)
    {
      PieceInPlace(run, x, offset, length, k);
    }
  }

  // ----- Sending a run

  /** Copies from the task's buffer into the front of `data`, as far as the buffer reaches. */
  method ReadBytes(buffer: Bytes, offset: nat, data: array<bv8>, n: nat)
    requires n <= data.Length
    modifies data
    ensures Carries(data[..n], buffer, offset, n)
  {
    var available := if offset >= |buffer| then 0 else |buffer| - offset;
    var m := if n < available then n else available;
    for i := 0 to m
      invariant forall j :: 0 <= j < i ==> data[j] == buffer[offset + j]
    {
      data[i] := buffer[offset + i];
    }
  }

  lemma NextPiece(run: seq<Attempt>, a: Attempt, x: Transfer, offset: u32, length: u32)
    requires x.Valid() && Pieces(run, x, offset, length) && AllDelivered(run)
    requires Start(|run|, x.limit) < length && IsPiece(a.pdu, x, offset, length, |run|)
    ensures Pieces(run + [a], x, offset, length)
    ensures AllDelivered(run + [a]) <==> a.delivered
  {
    hide IsPiece, Start;
    var next := run + [a];
    forall k | 0 <= k < |next|
      ensures Start(k, x.limit) < length && IsPiece(next[k].pdu, x, offset, length, k)
      ensures k < |next| - 1 ==> next[k].delivered
    {
      if k < |run| {
        assert next[k] == run[k];
      }
    }
    if a.delivered {
      forall k | 0 <= k < |next|
        ensures next[k].delivered
      {
        if k < |run| {
          assert next[k] == run[k];
        }
      }
    } else {
      assert !next[|run|].delivered;
    }
  }

  lemma HeadersNext(run: seq<Attempt>, a: Attempt)
    ensures Headers(run + [a]) == Headers(run) + [a.pdu.header]
    ensures Amount(run + [a]) == Amount(run) + if a.delivered then |a.pdu.data| else 0
  {
    assert (run + [a])[..|run + [a]| - 1] == run;
  }

  /** Sends the k-th PDU of a transfer. */
  method SendPiece(session: Session, connection: Connection, x: Transfer, offset: u32, length: u32, ghost k: nat,
                   dataSN: u32, from: u32, final: bool, data: array<bv8>, n: nat)
    returns (error: bool, ghost a: Attempt)
    requires session.Valid() && connection.Valid() && x.Valid()
    requires x.expStatSN == connection.expStatSN
    requires Start(k, x.limit) < length && dataSN == Wrap32(k) && from == Wrap32(offset + Start(k, x.limit))
    requires n == PieceLength(k, x.limit, length) <= data.Length
    requires final <==> length - Start(k, x.limit) <= x.limit
    modifies session`cmdSN, session`issued
    modifies connection`log, connection`traffic, connection.socket`sent, connection.socket`attempts, data
    ensures session.Valid() && connection.Valid() && session.cmdSN == old(session.cmdSN)
    ensures IsPiece(a.pdu, x, offset, length, k) && a.delivered == !error && |a.pdu.data| == n
    ensures connection.log == old(connection.log) + [a]
    ensures session.issued == old(session.issued) + [a.pdu.header]
    ensures error == connection.socket.fails(old(connection.socket.attempts))
    ensures connection.socket.attempts == old(connection.socket.attempts) + 1
  {
    hide DataOutHeader, Stamp, Start, Word, Carries, WireBytes, StatusAcknowledged, CommandsNumbered, LengthsStamped;
    DataOutFields(x, from, dataSN, final, session.cmdSN, n);
    ReadBytes(x.buffer, from, data, n);
    CarriesLength(data[..n], x.buffer, from, n);
    var bhs := DataOutHeader(x.lun, x.tag, x.transferTag, from, dataSN, final);
    a := Attempt(NextPdu(session, connection, bhs, data[..n]), connection.useHeaderDigest,
                 connection.useDataDigest, true);
    error := SendPDU(session, connection, bhs, data[..n]);
    a := a.(delivered := !error);
  }

  lemma WrapStart(offset: u32, s: nat, n: nat)
    ensures Wrap32(Wrap32(offset + s) + n) == Wrap32(offset + (s + n))
  {}

  /** Data-Out PDUs for [dataOffset, dataOffset + dataLength), until all are sent or a send fails.
    The precondition is what makes the loop end: see LoopEndsIff. */
  method ProcessDataOutForTask(session: Session, connection: Connection, task: Task, dataOffset: u32,
                               dataLength: u32, lun: Bytes, transferTag: Bytes) returns (ghost run: seq<Attempt>)
    requires session.Valid() && connection.Valid() && task.Valid() && |lun| == 8 && |transferTag| == 4
    requires LoopEnds(connection.maxSendDataSegmentLength, dataLength, connection.socket.fails,
                      connection.socket.attempts)
    modifies session`cmdSN, session`issued, task`realized
    modifies connection`log, connection`traffic, connection`dataToTransfer
    modifies connection.socket`sent, connection.socket`attempts
    ensures session.Valid() && connection.Valid() && session.cmdSN == old(session.cmdSN)
    ensures var x := Transfer(lun, task.tag, transferTag, task.buffer,
                              connection.maxSendDataSegmentLength, connection.expStatSN);
            Pieces(run, x, dataOffset, dataLength) && Complete(run, x, dataLength)
    ensures Follows(run, connection.socket.fails, old(connection.socket.attempts))
    ensures connection.socket.attempts == old(connection.socket.attempts) + |run|
    ensures connection.log == old(connection.log) + run
    ensures session.issued == old(session.issued) + Headers(run)
    ensures task.realized == old(task.realized) + Amount(run)
    ensures connection.dataToTransfer == Minus64(old(connection.dataToTransfer), Amount(run))
    ensures old(connection.dataToTransfer) >= Amount(run) ==>
              connection.dataToTransfer == old(connection.dataToTransfer) - Amount(run)
  {
    hide Pieces, Follows, Complete, Sending, IsPiece, Start, Wrap32, Headers, Amount, AllDelivered;
    hide WireBytes, StatusAcknowledged, CommandsNumbered, LengthsStamped, Minus64, LoopEnds;
    var x := Transfer(lun, task.tag, transferTag, task.buffer,
                      connection.maxSendDataSegmentLength, connection.expStatSN);
    var offset: u32, length: u32, dataSegmentLength: u32, dataSN: u32 := dataOffset, dataLength, x.limit, 0;
    var data := new bv8[x.limit];
    ghost var fails, first := connection.socket.fails, connection.socket.attempts;
    ghost var last := FailingSend(x.limit, length, fails, first);
    run := [];
    NothingSent(x, dataOffset);
    SendingStarts(x, dataOffset, dataLength, fails, first);
    while length != 0
      invariant session.Valid() && connection.Valid() && session.cmdSN == old(session.cmdSN)
      invariant Sending(run, x, dataOffset, dataLength, fails, first, offset, length)
      invariant connection.socket.attempts == first + |run| && dataSN == Wrap32(|run|)
      invariant length > 0 ==> dataSegmentLength == x.limit
      invariant x.limit == 0 && length > 0 ==> last >= connection.socket.attempts && fails(last)
      invariant connection.log == old(connection.log) + run
      invariant session.issued == old(session.issued) + Headers(run)
      invariant task.realized == old(task.realized) + Amount(run)
      invariant connection.dataToTransfer == Minus64(old(connection.dataToTransfer), Amount(run))
      decreases if x.limit > 0 then length else last - connection.socket.attempts
    {
      var final := false;
      if length <= dataSegmentLength {
        dataSegmentLength := length;
        final := true;
      }
      SendingAt(run, x, dataOffset, dataLength, fails, first, offset, length);
      ghost var a;
      var error;
      error, a := SendPiece(session, connection, x, dataOffset, dataLength, |run|, dataSN, offset, final,
                            data, dataSegmentLength);
      SendingNext(run, a, x, dataOffset, dataLength, fails, first, offset, length);
      HeadersNext(run, a);
      MinusTwice(old(connection.dataToTransfer), Amount(run), dataSegmentLength);
      WrapAdd(|run|, 1);
      run := run + [a];
      CountersExact(old(connection.dataToTransfer), Amount(run));
      if error {
        return;
      }
      length := length - dataSegmentLength;
      offset := WrappedAdd(offset, dataSegmentLength);
      task.realized := task.realized + dataSegmentLength;
      connection.dataToTransfer := Minus64(connection.dataToTransfer, dataSegmentLength);
      dataSN := Inc32(dataSN);
    }
    SendingDone(run, x, dataOffset, dataLength, fails, first, offset);
    CountersExact(old(connection.dataToTransfer), Amount(run));
  }

  function WrappedAdd(a: u32, b: u32): u32 { Wrap32(a + b) }

  /** The loop has sent `run` and is about to send the `length` bytes at `offset`. */
  ghost predicate Sending(run: seq<Attempt>, x: Transfer, dataOffset: u32, dataLength: u32,
                          fails: nat -> bool, first: nat, offset: u32, length: u32)
    requires x.Valid()
  {
    && Pieces(run, x, dataOffset, dataLength) && AllDelivered(run) && Follows(run, fails, first)
    && (if length > 0
        then Start(|run|, x.limit) + length == dataLength && offset == Wrap32(dataOffset + Start(|run|, x.limit))
        else Start(|run|, x.limit) >= dataLength)
  }

  lemma SendingStarts(x: Transfer, dataOffset: u32, dataLength: u32, fails: nat -> bool, first: nat)
    requires x.Valid()
    ensures Sending([], x, dataOffset, dataLength, fails, first, dataOffset, dataLength)
  {
    NothingSent(x, dataOffset);
  }

  lemma SendingAt(run: seq<Attempt>, x: Transfer, dataOffset: u32, dataLength: u32,
                  fails: nat -> bool, first: nat, offset: u32, length: u32)
    requires x.Valid() && Sending(run, x, dataOffset, dataLength, fails, first, offset, length) && length > 0
    ensures Start(|run|, x.limit) < dataLength && offset == Wrap32(dataOffset + Start(|run|, x.limit))
    ensures length == dataLength - Start(|run|, x.limit)
  {}

  lemma SendingNext(run: seq<Attempt>, a: Attempt, x: Transfer, dataOffset: u32, dataLength: u32,
                    fails: nat -> bool, first: nat, offset: u32, length: u32)
    requires x.Valid() && Sending(run, x, dataOffset, dataLength, fails, first, offset, length) && length > 0
    requires Start(|run|, x.limit) < dataLength && IsPiece(a.pdu, x, dataOffset, dataLength, |run|)
    requires a.delivered == !fails(first + |run|)
    ensures var n := PieceLength(|run|, x.limit, dataLength);
            a.delivered ==>
              Sending(run + [a], x, dataOffset, dataLength, fails, first, WrappedAdd(offset, n), length - n)
    ensures !a.delivered ==> Complete(run + [a], x, dataLength)
    ensures Pieces(run + [a], x, dataOffset, dataLength) && Follows(run + [a], fails, first)
  {
    hide Start, IsPiece, Pieces, Follows, Wrap32;
    NextPiece(run, a, x, dataOffset, dataLength);
    FollowsNext(run, a, fails, first);
    StartNext(|run|, x.limit);
    WrapStart(dataOffset, Start(|run|, x.limit), PieceLength(|run|, x.limit, dataLength));
  }

  lemma SendingDone(run: seq<Attempt>, x: Transfer, dataOffset: u32, dataLength: u32,
                    fails: nat -> bool, first: nat, offset: u32)
    requires x.Valid() && Sending(run, x, dataOffset, dataLength, fails, first, offset, 0)
    ensures Pieces(run, x, dataOffset, dataLength) && Complete(run, x, dataLength) && Follows(run, fails, first)
  {}

  // ----- When the loop ends

  ghost predicate GoesThrough(fails: nat -> bool, first: nat, k: nat) { !fails(first + k) }

  /** The sends of the run went as the socket decides, counting from its attempt `first`. */
  ghost predicate Follows(run: seq<Attempt>, fails: nat -> bool, first: nat) {
    forall k :: 0 <= k < |run| ==> run[k].delivered == GoesThrough(fails, first, k)
  }

  lemma FollowsNext(run: seq<Attempt>, a: Attempt, fails: nat -> bool, first: nat)
    requires Follows(run, fails, first) && a.delivered == !fails(first + |run|)
    ensures Follows(run + [a], fails, first)
  {}

  /** There is a segment limit, or nothing to send, or a send yet to come that fails. */
  ghost predicate LoopEnds(limit: nat, length: nat, fails: nat -> bool, first: nat) {
    limit > 0 || length == 0 || exists n :: n >= first && fails(n)
  }

  ghost function FailingSend(limit: nat, length: nat, fails: nat -> bool, first: nat): (n: nat)
    requires LoopEnds(limit, length, fails, first)
    ensures limit == 0 && length > 0 ==> n >= first && fails(n)
  {
    if limit == 0 && length > 0 then var n :| n >= first && fails(n); n else 0
  }

  lemma FollowsAt(run: seq<Attempt>, fails: nat -> bool, first: nat, k: nat)
    requires Follows(run, fails, first) && k < |run|
    ensures run[k].delivered == GoesThrough(fails, first, k)
  {}

  ghost function PieceAt(x: Transfer, offset: u32, length: u32, k: nat): Pdu
    requires x.Valid() && Start(k, x.limit) < length
  {
    var n := PieceLength(k, x.limit, length);
    var from := Wrap32(offset + Start(k, x.limit));
    Pdu(Stamp(DataOutHeader(x.lun, x.tag, x.transferTag, from, Wrap32(k), length - Start(k, x.limit) <= x.limit),
              0, x.expStatSN, n),
        seq(n, i requires 0 <= i < n => if from + i < |x.buffer| then x.buffer[from + i] else 0))
  }

  lemma PieceAtIsPiece(x: Transfer, offset: u32, length: u32, k: nat)
    requires x.Valid() && Start(k, x.limit) < length
    ensures IsPiece(PieceAt(x, offset, length, k), x, offset, length, k)
  {
    hide Start, DataOutHeader, Stamp, PieceLength, Wrap32;
  }

  /** The first `n` pieces as the socket decides. */
  ghost function FirstPieces(x: Transfer, offset: u32, length: u32, fails: nat -> bool, first: nat, n: nat)
    : seq<Attempt>
    requires x.Valid() && forall k :: 0 <= k < n ==> Start(k, x.limit) < length
  {
    seq(n, k requires 0 <= k < n =>
      Attempt(PieceAt(x, offset, length, k), false, false, GoesThrough(fails, first, k)))
  }

  lemma FirstPiecesFollow(x: Transfer, offset: u32, length: u32, fails: nat -> bool, first: nat, n: nat)
    requires x.Valid() && forall k :: 0 <= k < n ==> Start(k, x.limit) < length
    requires forall k :: 0 <= k < n - 1 ==> GoesThrough(fails, first, k)
    ensures var run := FirstPieces(x, offset, length, fails, first, n);
            Pieces(run, x, offset, length) && Follows(run, fails, first) && |run| == n
  {
    hide Start, PieceAt, IsPiece;
    forall k | 0 <= k < n
      ensures IsPiece(PieceAt(x, offset, length, k), x, offset, length, k)
    {
      PieceAtIsPiece(x, offset, length, k);
    }
  }

  /** Whatever the socket does, the loop ends with a run once it gets past its first `n` rounds. */
  lemma {:induction false} RunExists(x: Transfer, offset: u32, length: u32, fails: nat -> bool, first: nat, n: nat,
                                     last: nat) returns (run: seq<Attempt>)
    requires x.Valid() && forall k :: 0 <= k < n ==> Start(k, x.limit) < length && GoesThrough(fails, first, k)
    requires x.limit > 0 || length == 0 || (last >= first + n && fails(last))
    ensures Pieces(run, x, offset, length) && Complete(run, x, length) && Follows(run, fails, first)
    decreases if x.limit > 0 then length - SentBy(n, x.limit, length) else if length == 0 then 0 else last - n
  {
    hide Pieces, Follows, FirstPieces, Start;
    SentNext(n, x.limit, length);
    SentBounded(n, x.limit, length);
    if Start(n, x.limit) >= length {
      FirstPiecesFollow(x, offset, length, fails, first, n);
      run := FirstPieces(x, offset, length, fails, first, n);
    } else if !GoesThrough(fails, first, n) {
      FirstPiecesFollow(x, offset, length, fails, first, n + 1);
      run := FirstPieces(x, offset, length, fails, first, n + 1);
      FollowsAt(run, fails, first, n);
    } else {
      StartNext(0, x.limit);
      run := RunExists(x, offset, length, fails, first, n + 1, last);
    }
  }

  /** There is a run the loop can end with if and only if there is a segment limit, nothing to send,
    or a send that fails: otherwise it sends empty PDUs for ever. */
  lemma LoopEndsIff(x: Transfer, offset: u32, length: u32, fails: nat -> bool, first: nat)
    requires x.Valid()
    ensures LoopEnds(x.limit, length, fails, first) <==>
            exists run :: Pieces(run, x, offset, length) && Complete(run, x, length) && Follows(run, fails, first)
  {
    hide Pieces, Complete, Follows;
    if LoopEnds(x.limit, length, fails, first) {
      var run := RunExists(x, offset, length, fails, first, 0, FailingSend(x.limit, length, fails, first));
    }
    forall run | Pieces(run, x, offset, length) && Complete(run, x, length) && Follows(run, fails, first)
      ensures LoopEnds(x.limit, length, fails, first)
    {
      RunNeedsEnd(run, x, offset, length, fails, first);
    }
  }

  lemma RunNeedsEnd(run: seq<Attempt>, x: Transfer, offset: u32, length: u32, fails: nat -> bool, first: nat)
    requires x.Valid() && Pieces(run, x, offset, length) && Complete(run, x, length) && Follows(run, fails, first)
    ensures LoopEnds(x.limit, length, fails, first)
  {
    hide IsPiece, Pieces;
    if AllDelivered(run) {
      DeliveredNeedsLimit(run, x, offset, length);
    } else {
      var k :| 0 <= k < |run| && !run[k].delivered;
      FollowsAt(run, fails, first, k);
      assert fails(first + k);
    }
  }

  lemma NothingSent(x: Transfer, offset: u32)
    requires x.Valid()
    ensures Start(0, x.limit) == 0 && Wrap32(offset) == offset && Wrap32(0) == 0
    ensures AllDelivered([]) && Amount([]) == 0 && Headers([]) == []
    ensures forall d: u64 {:trigger Minus64(d, 0)} :: Minus64(d, 0) == d
  {}

  lemma MinusTwice(d: u64, a: nat, b: nat)
    ensures Minus64(Minus64(d, a), b) == Minus64(d, a + b)
  {
    var q := (d - a) / 0x1_0000_0000_0000_0000;
    assert Minus64(d, a) == d - a - q * 0x1_0000_0000_0000_0000;
    SameRemainder(d - a - b, q);
  }

  lemma SameRemainder(x: int, q: int)
    ensures (x - q * 0x1_0000_0000_0000_0000) % 0x1_0000_0000_0000_0000 == x % 0x1_0000_0000_0000_0000
  {
    var k := x / 0x1_0000_0000_0000_0000;
    var r := x % 0x1_0000_0000_0000_0000;
    assert x - q * 0x1_0000_0000_0000_0000 == (k - q) * 0x1_0000_0000_0000_0000 + r;
  }
}
