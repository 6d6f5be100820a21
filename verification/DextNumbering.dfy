/** The command numbers of one session on their way through the driver extension: used up on
  submission, queued, and handed to the daemon. */
module DextNumbering {
  import opened Words
  import opened SlotScan
  import opened PduHeader
  import opened DextHba
  import DextTags
  import DextTasks
  import Out = DextOutgoing

  /** The driver extension, and the history of one session: which of the PDUs that entered the queue
    carry a number of the session, and for each number used the arrival of its PDU, if the queue took it. */
  datatype Watched = Watched(core: Core, own: seq<bool>, issued: seq<Option<nat>>)

  datatype Event =
    | Command(target: nat, lun: nat, controllerId: nat, action: Option<nat>, request: Header)
    | Ping(target: nat, connection: nat, taskTag: u32, transferTag: u32, expStatSN: u32)
    | DataOut(pdu: Out.Pdu)
    | Settle(event: DextTasks.Event)
    | Get(room: bool)
    | Flush

  /** A PDU has been offered to the queue; `mine` tells whether it carries a number of the session. */
  function Recorded(w: Watched, core: Core, mine: bool): Watched {
    var taken := FirstFree(w.core.queue.slots, 0) < Out.QUEUE_SLOTS;
    Watched(core, if taken then w.own + [mine] else w.own,
            if !mine then w.issued
            else w.issued + [if taken then Some(|w.core.queue.entered|) else None])
  }

  function Step(w: Watched, t: nat, e: Event): Watched {
    match e
    case Command(u, lun, controllerId, action, request) =>
      if !Open(w.core, u) || DextTags.Full(w.core.tasks) then w
      else Recorded(w, Submitted(w.core, u, lun, controllerId, action, request), u == t)
    case Ping(u, connection, taskTag, transferTag, expStatSN) =>
      Recorded(w, Pinged(w.core, u, connection, taskTag, transferTag, expStatSN), u == t)
    case DataOut(pdu) => Recorded(w, w.core.(queue := Out.Enqueue(w.core.queue, pdu)), false)
    case Settle(event) => if event.Accept? then w else w.(core := w.core.(tasks := DextTasks.Step(w.core.tasks, event)))
    case Get(room) => w.(core := w.core.(queue := Out.GetNext(w.core.queue, room)))
    case Flush => w.(core := w.core.(queue := Out.FlushFrom(w.core.queue, 0)))
  }

  function Run(w: Watched, t: nat, es: seq<Event>): Watched
    decreases |es|
  {
    if es == [] then w else Run(Step(w, t, es[0]), t, es[1..])
  }

  // ----- The session's PDUs in order

  function OwnOf(s: Option<Out.Entry>, own: seq<bool>): seq<nat> {
    if s.Some? && s.value.arrival < |own| && own[s.value.arrival] then [s.value.arrival] else []
  }

  /** The session's PDUs among the slots, by arrival. */
  function OwnIn(slots: seq<Option<Out.Entry>>, own: seq<bool>): seq<nat>
    decreases |slots|
  {
    if slots == [] then [] else OwnOf(slots[0], own) + OwnIn(slots[1..], own)
  }

  /** The session's PDUs among those handed over. */
  function OwnHanded(es: seq<Out.Entry>, own: seq<bool>): seq<nat>
    decreases |es|
  {
    if es == [] then [] else OwnHanded(es[..|es| - 1], own) + OwnOf(Some(es[|es| - 1]), own)
  }

  lemma {:induction false} OwnInConcat(a: seq<Option<Out.Entry>>, b: seq<Option<Out.Entry>>, own: seq<bool>)
    ensures OwnIn(a + b, own) == OwnIn(a, own) + OwnIn(b, own)
    decreases |a|
  {
    hide OwnOf;
    if a == [] {
      assert a + b == b;
    } else {
      assert (a + b)[0] == a[0] && (a + b)[1..] == a[1..] + b;
      OwnInConcat(a[1..], b, own);
    }
  }

  lemma OwnInSplit(slots: seq<Option<Out.Entry>>, i: nat, s: Option<Out.Entry>, own: seq<bool>)
    requires i < |slots|
    ensures OwnIn(slots[i := s], own) == OwnIn(slots[..i], own) + OwnOf(s, own) + OwnIn(slots[i + 1..], own)
  {
    hide OwnOf;
    assert slots[i := s] == slots[..i] + ([s] + slots[i + 1..]);
    OwnInConcat(slots[..i], [s] + slots[i + 1..], own);
    OwnInConcat([s], slots[i + 1..], own);
    assert [s][1..] == [] && OwnIn([s], own) == OwnOf(s, own) + OwnIn([], own);
  }

  lemma {:induction false} NoneOwn(slots: seq<Option<Out.Entry>>, own: seq<bool>)
    requires forall k :: 0 <= k < |slots| ==> slots[k].None?
    ensures OwnIn(slots, own) == []
    decreases |slots|
  {
    if slots != [] {
      NoneOwn(slots[1..], own);
    }
  }

  lemma {:induction false} OwnBounded(slots: seq<Option<Out.Entry>>, own: seq<bool>)
    ensures forall a :: a in OwnIn(slots, own) ==> a < |own|
    decreases |slots|
  {
    if slots != [] {
      OwnBounded(slots[1..], own);
    }
  }

  lemma HandedNext(es: seq<Out.Entry>, e: Out.Entry, own: seq<bool>)
    ensures OwnHanded(es + [e], own) == OwnHanded(es, own) + OwnOf(Some(e), own)
  {
    assert (es + [e])[..|es|] == es;
  }

  /** What a request takes out comes off the front of the session's PDUs, if it is one of them. */
  lemma FirstComesOff(q: Out.Queue, own: seq<bool>, room: bool)
    requires FirstActive(q.slots, 0) < Out.QUEUE_SLOTS
    ensures var first := OwnOf(q.slots[FirstActive(q.slots, 0)], own);
            var next := Out.GetNext(q, room);
            && OwnIn(q.slots, own) == first + OwnIn(next.slots, own)
            && OwnHanded(next.handed, own) == OwnHanded(q.handed, own) + if room then first else []
  {
    hide OwnOf, OwnIn, OwnHanded;
    var f := FirstActive(q.slots, 0);
    OwnInSplit(q.slots, f, q.slots[f], own);
    OwnInSplit(q.slots, f, None, own);
    assert q.slots[f := q.slots[f]] == q.slots;
    NoneOwn(q.slots[..f], own);
    NoneOf(own);
    HandedNext(q.handed, q.slots[f].value, own);
  }

  lemma NoneOf(own: seq<bool>)
    ensures OwnOf(None, own) == []
  {}

  /** Asked on, the queue hands over what it holds from front to back. */
  lemma {:induction false} HandsOutAll(q: Out.Queue, own: seq<bool>, n: nat)
    requires n >= Out.QUEUE_SLOTS - FirstActive(q.slots, 0)
    ensures OwnHanded(Out.Run(q, Out.Gets(n)).handed, own) == OwnHanded(q.handed, own) + OwnIn(q.slots, own)
    decreases n
  {
    hide OwnOf, OwnIn, OwnHanded;
    var f, next := FirstActive(q.slots, 0), Out.GetNext(q, true);
    if f == Out.QUEUE_SLOTS {
      NoneOwn(q.slots, own);
    } else {
      FirstComesOff(q, own, true);
    }
    if n > 0 {
      assert Out.Gets(n)[0] == Out.Get(true) && Out.Gets(n)[1..] == Out.Gets(n - 1);
      assert Out.Run(q, Out.Gets(n)) == Out.Run(next, Out.Gets(n - 1));
      HandsOutAll(next, own, n - 1);
    }
  }

  // ----- What the daemon gets

  function Somes(xs: seq<nat>): seq<Option<nat>> { seq(|xs|, i requires 0 <= i < |xs| => Some(xs[i])) }

  /** A daemon that keeps asking is handed the session's PDUs, each number used, in the order of their
    use. */
  ghost predicate Served(w: Watched) {
    Somes(OwnHanded(Out.Run(w.core.queue, Out.Gets(Out.QUEUE_SLOTS)).handed, w.own)) == w.issued
  }

  /** The session's PDUs handed over and still to come. */
  function Coming(w: Watched): seq<nat> {
    OwnHanded(w.core.queue.handed, w.own) + OwnIn(w.core.queue.slots, w.own)
  }

  lemma ServedIffComing(w: Watched)
    ensures Served(w) <==> Somes(Coming(w)) == w.issued
  {
    HandsOutAll(w.core.queue, w.own, Out.QUEUE_SLOTS);
  }

  predicate Genuine(q: Out.Queue, e: Out.Entry) { e.arrival < |q.entered| && q.entered[e.arrival] == e }

  /** What is held and what was handed over has entered. */
  ghost predicate Known(q: Out.Queue) {
    && (forall i :: 0 <= i < Out.QUEUE_SLOTS && q.slots[i].Some? ==> Genuine(q, q.slots[i].value))
    && (forall i :: 0 <= i < |q.handed| ==> Genuine(q, q.handed[i]))
  }

  /** The numbers used so far are `first` and on. */
  ghost predicate Numbered(w: Watched, t: nat, first: u32) {
    && t < |w.core.sessions| && w.core.sessions[t].cmdSN == Wrap32(first + |w.issued|)
    && forall k :: 0 <= k < |w.issued| && w.issued[k].Some? ==>
         var a := w.issued[k].value;
         a < |w.core.queue.entered| && Word(w.core.queue.entered[a].pdu.header, CMD_SN) == Wrap32(first + k)
  }

  ghost predicate Good(w: Watched, t: nat, first: u32) {
    Known(w.core.queue) && |w.own| == |w.core.queue.entered| && Numbered(w, t, first)
  }

  // ----- One event

  predicate Uses(w: Watched, t: nat, e: Event) {
    || (e.Command? && e.target == t && Open(w.core, t) && !DextTags.Full(w.core.tasks))
    || (e.Ping? && e.target == t)
  }

  /** A number of the session is lost or overtaken: its PDU meets a full queue, is put in front of a
    waiting one of the session, is thrown away because the daemon has no room, or with the queue. */
  predicate Breaks(w: Watched, t: nat, e: Event) {
    var slots := w.core.queue.slots;
    || (Uses(w, t, e) &&
        (FirstFree(slots, 0) == Out.QUEUE_SLOTS || OwnIn(slots[FirstFree(slots, 0) + 1..], w.own) != []))
    || (e == Get(false) && FirstActive(slots, 0) < Out.QUEUE_SLOTS
        && OwnOf(slots[FirstActive(slots, 0)], w.own) != [])
    || (e.Flush? && OwnIn(slots, w.own) != [])
  }

  lemma {:induction false} OwnGrows(slots: seq<Option<Out.Entry>>, own: seq<bool>, mine: bool)
    requires forall k :: 0 <= k < |slots| && slots[k].Some? ==> slots[k].value.arrival < |own|
    ensures OwnIn(slots, own + [mine]) == OwnIn(slots, own)
    decreases |slots|
  {
    if slots != [] {
      OwnGrows(slots[1..], own, mine);
    }
  }

  lemma {:induction false} OwnHandedGrows(es: seq<Out.Entry>, own: seq<bool>, mine: bool)
    requires forall k :: 0 <= k < |es| ==> es[k].arrival < |own|
    ensures OwnHanded(es, own + [mine]) == OwnHanded(es, own)
    decreases |es|
  {
    if es != [] {
      OwnHandedGrows(es[..|es| - 1], own, mine);
    }
  }

  /** A PDU that the queue takes joins the session's PDUs behind those in front of its slot. */
  lemma PutJoins(q: Out.Queue, p: Out.Pdu, own: seq<bool>, mine: bool)
    requires Known(q) && |own| == |q.entered| && FirstFree(q.slots, 0) < Out.QUEUE_SLOTS
    ensures var i, next := FirstFree(q.slots, 0), Out.Enqueue(q, p);
            var front, behind := OwnIn(q.slots[..i], own), OwnIn(q.slots[i + 1..], own);
            && OwnIn(q.slots, own) == front + behind
            && OwnIn(next.slots, own + [mine]) == front + (if mine then [|own|] else []) + behind
            && OwnHanded(next.handed, own + [mine]) == OwnHanded(q.handed, own)
  {
    hide OwnIn, OwnHanded, Out.Stored;
    var i, next := FirstFree(q.slots, 0), Out.Enqueue(q, p);
    var e := Out.Entry(Out.Stored(p), |q.entered|);
    OwnInSplit(q.slots, i, None, own);
    assert q.slots[i := None] == q.slots;
    OwnInSplit(q.slots, i, Some(e), own + [mine]);
    OwnGrows(q.slots[..i], own, mine);
    OwnGrows(q.slots[i + 1..], own, mine);
    OwnHandedGrows(q.handed, own, mine);
  }

  lemma SomesConcat(a: seq<nat>, b: seq<nat>)
    ensures Somes(a + b) == Somes(a) + Somes(b)
  {}

  /** A new arrival in the middle is in its place if and only if nothing stands behind it. */
  lemma JoinsAtEnd(front: seq<nat>, behind: seq<nat>, a: nat, issued: seq<Option<nat>>)
    requires Somes(front + behind) == issued && forall b :: b in behind ==> b < a
    ensures Somes(front + [a] + behind) == issued + [Some(a)] <==> behind == []
  {
    var joined := Somes(front + [a] + behind);
    if behind == [] {
      assert front + [a] + behind == front + behind + [a];
      SomesConcat(front + behind, [a]);
    } else {
      assert joined[|joined| - 1] == Some(behind[|behind| - 1]);
      assert behind[|behind| - 1] in behind;
      assert (issued + [Some(a)])[|issued|] == Some(a);
    }
  }

  lemma NeverAgain(xs: seq<nat>, issued: seq<Option<nat>>)
    ensures Somes(xs) != issued + [None]
  {
    if |xs| == |issued| + 1 {
      assert Somes(xs)[|issued|].Some? && (issued + [None])[|issued|].None?;
    }
  }

  /** Offering a PDU to the queue. */
  lemma OfferServedIff(w: Watched, core: Core, p: Out.Pdu, mine: bool)
    requires Known(w.core.queue) && |w.own| == |w.core.queue.entered| && core.queue == Out.Enqueue(w.core.queue, p)
    requires Somes(Coming(w)) == w.issued
    ensures var r, slots := Recorded(w, core, mine), w.core.queue.slots;
            Somes(Coming(r)) == r.issued <==>
              !mine || (FirstFree(slots, 0) < Out.QUEUE_SLOTS && OwnIn(slots[FirstFree(slots, 0) + 1..], w.own) == [])
  {
    hide OwnIn, OwnHanded, OwnOf, Somes, Known, Out.Enqueue;
    PutKnown(w.core.queue, p);
    var q, r := w.core.queue, Recorded(w, core, mine);
    var i := FirstFree(q.slots, 0);
    if i == Out.QUEUE_SLOTS {
      NeverAgain(Coming(r), w.issued);
    } else {
      PutJoins(q, p, w.own, mine);
      var handed := OwnHanded(q.handed, w.own);
      var front, behind := OwnIn(q.slots[..i], w.own), OwnIn(q.slots[i + 1..], w.own);
      assert Coming(w) == (handed + front) + behind;
      if mine {
        OwnBounded(q.slots[i + 1..], w.own);
        JoinsAtEnd(handed + front, behind, |w.own|, w.issued);
        assert Coming(r) == (handed + front) + [|w.own|] + behind;
      } else {
        assert Coming(r) == (handed + front) + behind;
      }
    }
  }

  lemma {:induction false} FlushTakesAll(q: Out.Queue, i: nat)
    requires i <= Out.QUEUE_SLOTS && forall k :: 0 <= k < i ==> q.slots[k].None?
    ensures var r := Out.FlushFrom(q, i);
            r.slots == Out.NO_ENTRIES && r.handed == q.handed && r.entered == q.entered
    decreases Out.QUEUE_SLOTS - i
  {
    if i < Out.QUEUE_SLOTS {
      FlushTakesAll(if q.slots[i].None? then q else Out.TakeOut(q, i, false), i + 1);
    }
  }

  lemma DroppedOrNot(handed: seq<nat>, gone: seq<nat>, rest: seq<nat>, issued: seq<Option<nat>>)
    requires Somes(handed + (gone + rest)) == issued
    ensures Somes(handed + rest) == issued <==> gone == []
  {
    assert |Somes(handed + rest)| == |handed| + |rest|;
    if gone == [] {
      assert gone + rest == rest;
    }
  }

  lemma GetServedIff(w: Watched, t: nat, room: bool)
    requires Somes(Coming(w)) == w.issued
    ensures var r := Step(w, t, Get(room)); Somes(Coming(r)) == r.issued <==> !Breaks(w, t, Get(room))
  {
    hide OwnIn, OwnHanded, Somes, OwnOf;
    var q := w.core.queue;
    var f := FirstActive(q.slots, 0);
    if f < Out.QUEUE_SLOTS {
      FirstComesOff(q, w.own, room);
      var handed, first, rest :=
        OwnHanded(q.handed, w.own), OwnOf(q.slots[f], w.own), OwnIn(Out.GetNext(q, room).slots, w.own);
      assert handed + (first + rest) == (handed + first) + rest;
      DroppedOrNot(handed, first, rest, w.issued);
      assert handed + [] == handed;
    }
  }

  lemma FlushServedIff(w: Watched, t: nat)
    requires Somes(Coming(w)) == w.issued
    ensures var r := Step(w, t, Flush); Somes(Coming(r)) == r.issued <==> !Breaks(w, t, Flush)
  {
    hide OwnIn, OwnHanded, Somes, OwnOf;
    var q := w.core.queue;
    FlushTakesAll(q, 0);
    NoneOwn(Out.NO_ENTRIES, w.own);
    var handed, held := OwnHanded(q.handed, w.own), OwnIn(q.slots, w.own);
    assert held + [] == held;
    DroppedOrNot(handed, held, [], w.issued);
  }

  lemma StepServedIff(w: Watched, t: nat, first: u32, e: Event)
    requires Good(w, t, first) && Somes(Coming(w)) == w.issued
    ensures var r := Step(w, t, e); Somes(Coming(r)) == r.issued <==> !Breaks(w, t, e)
  {
    hide OwnIn, OwnHanded, Somes, OwnOf, Known, Numbered, CommandPdu, NopOut, Out.Enqueue;
    match e {
      case Command(u, lun, controllerId, action, request) =>
        if Open(w.core, u) && !DextTags.Full(w.core.tasks) {
          OfferServedIff(w, Submitted(w.core, u, lun, controllerId, action, request),
                         CommandPdu(w.core.sessions[u], request, w.core.tasks.nextTag), u == t);
        }
      case Ping(u, connection, taskTag, transferTag, expStatSN) =>
        OfferServedIff(w, Pinged(w.core, u, connection, taskTag, transferTag, expStatSN),
                       NopOut(u, connection, taskTag, transferTag,
                              if u < |w.core.sessions| then w.core.sessions[u].cmdSN else 0, expStatSN), u == t);
      case DataOut(pdu) => OfferServedIff(w, w.core.(queue := Out.Enqueue(w.core.queue, pdu)), pdu, false);
      case Settle(event) =>
      case Get(room) => GetServedIff(w, t, room);
      case Flush => FlushServedIff(w, t);
    }
  }

  // ----- Runs

  lemma PutKnown(q: Out.Queue, p: Out.Pdu)
    requires Known(q)
    ensures var r := Out.Enqueue(q, p);
            && Known(r) && q.entered <= r.entered
            && (FirstFree(q.slots, 0) == Out.QUEUE_SLOTS ==> r == q)
            && (FirstFree(q.slots, 0) < Out.QUEUE_SLOTS ==>
                  |r.entered| == |q.entered| + 1 && r.entered[|q.entered|].pdu.header == p.header)
  {}

  lemma OfferGood(w: Watched, t: nat, first: u32, core: Core, p: Out.Pdu, mine: bool)
    requires Good(w, t, first) && core.queue == Out.Enqueue(w.core.queue, p)
    requires t < |core.sessions|
    requires var n := w.core.sessions[t].cmdSN; core.sessions[t].cmdSN == if mine then Inc32(n) else n
    requires mine ==> Word(p.header, CMD_SN) == w.core.sessions[t].cmdSN
    ensures Good(Recorded(w, core, mine), t, first)
  {
    hide Known, Out.Enqueue, Word;
    PutKnown(w.core.queue, p);
    WrapAdd(first + |w.issued|, 1);
    var r := Recorded(w, core, mine);
    forall k | 0 <= k < |r.issued| && r.issued[k].Some?
      ensures r.issued[k].value < |r.core.queue.entered|
      ensures Word(r.core.queue.entered[r.issued[k].value].pdu.header, CMD_SN) == Wrap32(first + k)
    {
      if k < |w.issued| {
        assert r.issued[k] == w.issued[k];
        assert r.core.queue.entered[w.issued[k].value] == w.core.queue.entered[w.issued[k].value];
      }
    }
  }

  lemma CommandNumber(s: Session, request: Header, tag: u32)
    ensures Word(CommandPdu(s, request, tag).header, CMD_SN) == s.cmdSN
  {
    hide Word, BigEndian, CommandHeader;
    CommandHeaderReadsBack(request, tag, s.cmdSN, s.expCmdSN);
    WordIsBigEndian(CommandHeader(request, tag, s.cmdSN, s.expCmdSN), CMD_SN);
  }

  lemma PingNumber(target: nat, connection: nat, taskTag: u32, transferTag: u32, cmdSN: u32, expStatSN: u32)
    ensures Word(NopOut(target, connection, taskTag, transferTag, cmdSN, expStatSN).header, CMD_SN) == cmdSN
  {
    hide Word, BigEndian, NopOut;
    NopOutReadsBack(target, connection, taskTag, transferTag, cmdSN, expStatSN);
    WordIsBigEndian(NopOut(target, connection, taskTag, transferTag, cmdSN, expStatSN).header, CMD_SN);
  }

  lemma {:induction false} FlushKnown(q: Out.Queue, i: nat)
    requires Known(q) && i <= Out.QUEUE_SLOTS
    ensures Known(Out.FlushFrom(q, i)) && Out.FlushFrom(q, i).entered == q.entered
    decreases Out.QUEUE_SLOTS - i
  {
    hide Known, Out.TakeOut;
    if i < Out.QUEUE_SLOTS {
      if q.slots[i].Some? {
        TakeOutKnown(q, i, false);
      }
      FlushKnown(if q.slots[i].None? then q else Out.TakeOut(q, i, false), i + 1);
    }
  }

  lemma TakeOutKnown(q: Out.Queue, i: nat, hand: bool)
    requires Known(q) && i < Out.QUEUE_SLOTS && q.slots[i].Some?
    ensures Known(Out.TakeOut(q, i, hand)) && Out.TakeOut(q, i, hand).entered == q.entered
  {}

  lemma GetKnown(q: Out.Queue, room: bool)
    requires Known(q)
    ensures Known(Out.GetNext(q, room)) && Out.GetNext(q, room).entered == q.entered
  {}

  /** Registering and unregistering begin and end the life of a session; all other events keep this. */
  lemma StepGood(w: Watched, t: nat, first: u32, e: Event)
    requires Good(w, t, first)
    ensures Good(Step(w, t, e), t, first)
  {
    hide Known, CommandPdu, NopOut, Out.Enqueue, Out.GetNext, Out.FlushFrom, Word, Inc32;
    match e {
      case Command(u, lun, controllerId, action, request) =>
        if Open(w.core, u) && !DextTags.Full(w.core.tasks) {
          CommandNumber(w.core.sessions[u], request, w.core.tasks.nextTag);
          OfferGood(w, t, first, Submitted(w.core, u, lun, controllerId, action, request),
                    CommandPdu(w.core.sessions[u], request, w.core.tasks.nextTag), u == t);
        }
      case Ping(u, connection, taskTag, transferTag, expStatSN) =>
        var n := if u < |w.core.sessions| then w.core.sessions[u].cmdSN else 0;
        PingNumber(u, connection, taskTag, transferTag, n, expStatSN);
        OfferGood(w, t, first, Pinged(w.core, u, connection, taskTag, transferTag, expStatSN),
                  NopOut(u, connection, taskTag, transferTag, n, expStatSN), u == t);
      case DataOut(pdu) => OfferGood(w, t, first, w.core.(queue := Out.Enqueue(w.core.queue, pdu)), pdu, false);
      case Settle(event) =>
      case Get(room) => GetKnown(w.core.queue, room);
      case Flush => FlushKnown(w.core.queue, 0);
    }
  }

  ghost predicate AlwaysServed(w: Watched, t: nat, es: seq<Event>)
    decreases |es|
  {
    Served(w) && (es == [] || AlwaysServed(Step(w, t, es[0]), t, es[1..]))
  }

  predicate NeverBreaks(w: Watched, t: nat, es: seq<Event>)
    decreases |es|
  {
    es == [] || (!Breaks(w, t, es[0]) && NeverBreaks(Step(w, t, es[0]), t, es[1..]))
  }

  /** Over every run within the life of a session: at every point a daemon that keeps asking is handed a
    PDU for each number the session has used, in the order of their use, if and only if no PDU with a
    number of the session meets a full queue, is put in front of a waiting one of the session, or is
    thrown away. */
  lemma {:induction false} ServedIffNeverBreaks(w: Watched, t: nat, first: u32, es: seq<Event>)
    requires Good(w, t, first) && Served(w)
    ensures AlwaysServed(w, t, es) <==> NeverBreaks(w, t, es)
    ensures Good(Run(w, t, es), t, first) && (NeverBreaks(w, t, es) ==> Served(Run(w, t, es)))
    decreases |es|
  {
    hide Served, Good, Step, Breaks, Coming, Somes;
    if es != [] {
      var r := Step(w, t, es[0]);
      ServedIffComing(w);
      StepServedIff(w, t, first, es[0]);
      StepGood(w, t, first, es[0]);
      ServedIffComing(r);
      if Served(r) {
        ServedIffNeverBreaks(r, t, first, es[1..]);
      } else {
        RunGood(r, t, first, es[1..]);
      }
    }
  }

  lemma {:induction false} RunGood(w: Watched, t: nat, first: u32, es: seq<Event>)
    requires Good(w, t, first)
    ensures Good(Run(w, t, es), t, first)
    decreases |es|
  {
    hide Good, Step;
    if es != [] {
      StepGood(w, t, first, es[0]);
      RunGood(Step(w, t, es[0]), t, first, es[1..]);
    }
  }

  /** A session has just been registered; nothing carries its numbers. */
  function Registered(c: Core): Watched {
    Watched(c, seq(|c.queue.entered|, _ => false), [])
  }

  lemma RegisteredGood(c: Core, t: nat)
    requires t < |c.sessions| && Known(c.queue)
    ensures Good(Registered(c), t, c.sessions[t].cmdSN) && Served(Registered(c))
  {
    hide Served, Word, Out.Run, Out.Gets, OwnIn, OwnHanded, Known;
    var w := Registered(c);
    ServedIffComing(w);
    NothingOwn(c.queue.slots, w.own);
    NothingOwnHanded(c.queue.handed, w.own);
  }

  lemma {:induction false} NothingOwn(slots: seq<Option<Out.Entry>>, own: seq<bool>)
    requires forall k :: 0 <= k < |own| ==> !own[k]
    ensures OwnIn(slots, own) == []
    decreases |slots|
  {
    if slots != [] {
      NothingOwn(slots[1..], own);
    }
  }

  lemma {:induction false} NothingOwnHanded(es: seq<Out.Entry>, own: seq<bool>)
    requires forall k :: 0 <= k < |own| ==> !own[k]
    ensures OwnHanded(es, own) == []
    decreases |es|
  {
    if es != [] {
      NothingOwnHanded(es[..|es| - 1], own);
    }
  }

  /** From registration on, as long as none is lost or overtaken, the daemon has been handed the
    command numbers of the session one after the other, and nothing else of it. */
  lemma NumbersConsecutive(c: Core, t: nat, es: seq<Event>)
    requires t < |c.sessions| && Known(c.queue) && NeverBreaks(Registered(c), t, es)
    ensures var r := Run(Registered(c), t, es);
            var handed := OwnHanded(r.core.queue.handed, r.own);
            && |handed| <= |r.issued|
            && forall k :: 0 <= k < |handed| ==>
                 handed[k] < |r.core.queue.entered| &&
                 Word(r.core.queue.entered[handed[k]].pdu.header, CMD_SN) == Wrap32(c.sessions[t].cmdSN + k)
  {
    hide Known, NeverBreaks, Served, Run, Word, OwnHanded, OwnIn, Registered;
    var first := c.sessions[t].cmdSN;
    RegisteredGood(c, t);
    ServedIffNeverBreaks(Registered(c), t, first, es);
    var r := Run(Registered(c), t, es);
    ServedIffComing(r);
    var handed := OwnHanded(r.core.queue.handed, r.own);
    forall k | 0 <= k < |handed|
      ensures r.issued[k] == Some(handed[k])
    {
      assert Coming(r)[k] == handed[k];
      assert Somes(Coming(r))[k] == Some(handed[k]);
    }
  }
}
