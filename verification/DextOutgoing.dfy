/** The driver extension's queue of PDUs on their way to the daemon: 64 slots, filled at the first
  free one and emptied at the first active one. */
module DextOutgoing {
  import opened Words
  import opened SlotScan
  import opened Crc32cSpec
  import opened PduHeader

  const QUEUE_SLOTS := 64
  const MAX_DATA := 65536

  datatype Pdu = Pdu(session: nat, connection: nat, tag: u32, header: Header, data: Bytes)

  /** `arrival` is the model's own numbering of the PDUs put into the queue. */
  datatype Entry = Entry(pdu: Pdu, arrival: nat)

  type Slots = s: seq<Option<Entry>> | |s| == QUEUE_SLOTS witness seq(QUEUE_SLOTS, _ => None)

  /** The slots; every entry that was put in, that was handed to the daemon, and that was thrown away. */
  datatype Queue = Queue(slots: Slots, entered: seq<Entry>, handed: seq<Entry>, dropped: seq<Entry>)

  const NO_ENTRIES: Slots := seq(QUEUE_SLOTS, _ => None)

  const EMPTY: Queue := Queue(NO_ENTRIES, [], [], [])

  // ----- Operations

  /** What the queue keeps of a PDU: payloads are cut at 65536 bytes. */
  function Stored(p: Pdu): Pdu {
    p.(data := if |p.data| <= MAX_DATA then p.data else p.data[..MAX_DATA])
  }

  function Enqueue(q: Queue, p: Pdu): Queue {
    var i := FirstFree(q.slots, 0);
    if i == QUEUE_SLOTS then q
    else
      var e := Entry(Stored(p), |q.entered|);
      q.(slots := q.slots[i := Some(e)], entered := q.entered + [e])
  }

  function TakeOut(q: Queue, i: nat, hand: bool): Queue
    requires i < QUEUE_SLOTS && q.slots[i].Some?
  {
    var e := q.slots[i].value;
    q.(slots := q.slots[i := None],
       handed := if hand then q.handed + [e] else q.handed,
       dropped := if hand then q.dropped else q.dropped + [e])
  }

  /** The daemon asks for a PDU: the first one found is handed over, or thrown away when the
    daemon's buffer has no room for a whole PDU. */
  function GetNext(q: Queue, room: bool): Queue {
    var i := FirstActive(q.slots, 0);
    if i == QUEUE_SLOTS then q else TakeOut(q, i, room)
  }

  function FlushFrom(q: Queue, i: nat): Queue
    requires i <= QUEUE_SLOTS
    decreases QUEUE_SLOTS - i
  {
    if i == QUEUE_SLOTS then q
    else if q.slots[i].None? then FlushFrom(q, i + 1)
    else FlushFrom(TakeOut(q, i, false), i + 1)
  }

  datatype Event = Put(pdu: Pdu) | Get(room: bool) | Flush

  function Step(q: Queue, e: Event): Queue {
    match e
    case Put(pdu) => Enqueue(q, pdu)
    case Get(room) => GetNext(q, room)
    case Flush => FlushFrom(q, 0)
  }

  function Run(q: Queue, es: seq<Event>): Queue
    decreases |es|
  {
    if es == [] then q else Run(Step(q, es[0]), es[1..])
  }

  // ----- Conservation

  function Held(slots: seq<Option<Entry>>): multiset<Entry>
    decreases |slots|
  {
    if slots == [] then multiset{} else Held(slots[..|slots| - 1]) + One(slots[|slots| - 1])
  }

  function One(s: Option<Entry>): multiset<Entry> { if s.Some? then multiset{s.value} else multiset{} }

  lemma SumsSwap<T>(a: multiset<T>, b: multiset<T>, c: multiset<T>, d: multiset<T>, e: multiset<T>)
    requires a + b == c + d
    ensures (a + e) + b == (c + e) + d
  {
    assert (a + e) + b == (a + b) + e && (c + e) + d == (c + d) + e;
  }

  lemma HeldLast(slots: seq<Option<Entry>>, last: Option<Entry>)
    ensures Held(slots + [last]) == Held(slots) + One(last)
  {
    assert (slots + [last])[..|slots|] == slots;
  }

  lemma {:induction false} HeldUpdate(slots: seq<Option<Entry>>, i: nat, s: Option<Entry>)
    requires i < |slots|
    ensures Held(slots[i := s]) + One(slots[i]) == Held(slots) + One(s)
    decreases |slots|
  {
    hide Held, One;
    var front, last := slots[..|slots| - 1], slots[|slots| - 1];
    assert slots == front + [last];
    HeldLast(front, last);
    if i == |front| {
      assert slots[i := s] == front + [s];
      HeldLast(front, s);
      SumsSwap(Held(front), One(s), Held(front), One(s), One(last));
    } else {
      assert slots[i := s] == front[i := s] + [last];
      HeldLast(front[i := s], last);
      HeldUpdate(front, i, s);
      SumsSwap(Held(front[i := s]), One(slots[i]), Held(front), One(s), One(last));
    }
  }

  lemma HeldPut(slots: seq<Option<Entry>>, i: nat, e: Entry)
    requires i < |slots| && slots[i].None?
    ensures Held(slots[i := Some(e)]) == Held(slots) + multiset{e}
  {
    HeldUpdate(slots, i, Some(e));
    hide Held;
    var after := Held(slots[i := Some(e)]);
    assert after + multiset{} == Held(slots) + multiset{e};
  }

  lemma HeldTake(slots: seq<Option<Entry>>, i: nat, e: Entry)
    requires i < |slots| && slots[i] == Some(e)
    ensures Held(slots[i := None]) + multiset{e} == Held(slots)
  {
    HeldUpdate(slots, i, None);
    hide Held;
    assert Held(slots) + multiset{} == Held(slots);
  }

  lemma {:induction false} HeldSize(slots: seq<Option<Entry>>)
    ensures |Held(slots)| == ActiveCount(slots)
    decreases |slots|
  {
    if slots != [] {
      HeldSize(slots[..|slots| - 1]);
    }
  }

  /** What entered is, entry for entry, what is held, was handed over or was thrown away; entries are
    numbered as they entered, so no two are the same. */
  ghost predicate Conserved(q: Queue) {
    && multiset(q.entered) == Held(q.slots) + multiset(q.handed) + multiset(q.dropped)
    && forall k :: 0 <= k < |q.entered| ==> q.entered[k].arrival == k
  }

  lemma EmptyConserved()
    ensures Conserved(EMPTY)
  {
    HeldSize(NO_ENTRIES);
    CountDecidesScans(NO_ENTRIES);
  }

  lemma MovedOut<T>(all: multiset<T>, held: multiset<T>, left: multiset<T>, a: multiset<T>, b: multiset<T>, e: T)
    requires all == held + a + b && left + multiset{e} == held
    ensures all == left + (a + multiset{e}) + b && all == left + a + (b + multiset{e})
  {}

  lemma TakeOutConserves(q: Queue, i: nat, hand: bool)
    requires Conserved(q) && i < QUEUE_SLOTS && q.slots[i].Some?
    ensures Conserved(TakeOut(q, i, hand))
  {
    var e := q.slots[i].value;
    HeldTake(q.slots, i, e);
    hide Held;
    MovedOut(multiset(q.entered), Held(q.slots), Held(q.slots[i := None]), multiset(q.handed), multiset(q.dropped), e);
    assert multiset(q.handed + [e]) == multiset(q.handed) + multiset{e};
    assert multiset(q.dropped + [e]) == multiset(q.dropped) + multiset{e};
  }

  lemma MovedIn<T>(all: multiset<T>, held: multiset<T>, more: multiset<T>, a: multiset<T>, b: multiset<T>, e: T)
    requires all == held + a + b && more == held + multiset{e}
    ensures all + multiset{e} == more + a + b
  {}

  lemma PutInConserves(q: Queue, i: nat, p: Pdu)
    requires Conserved(q) && i == FirstFree(q.slots, 0) < QUEUE_SLOTS
    ensures Conserved(Enqueue(q, p))
  {
    var e := Entry(Stored(p), |q.entered|);
    HeldPut(q.slots, i, e);
    hide Held, Stored, FirstFree;
    MovedIn(multiset(q.entered), Held(q.slots), Held(q.slots[i := Some(e)]),
            multiset(q.handed), multiset(q.dropped), e);
    assert multiset(q.entered + [e]) == multiset(q.entered) + multiset{e};
  }

  lemma {:induction false} FlushConserves(q: Queue, i: nat)
    requires Conserved(q) && i <= QUEUE_SLOTS
    ensures Conserved(FlushFrom(q, i))
    decreases QUEUE_SLOTS - i
  {
    hide Conserved, TakeOut;
    if i < QUEUE_SLOTS {
      if q.slots[i].None? {
        FlushConserves(q, i + 1);
      } else {
        TakeOutConserves(q, i, false);
        FlushConserves(TakeOut(q, i, false), i + 1);
      }
    }
  }

  lemma FullRefuses(q: Queue, p: Pdu)
    requires FirstFree(q.slots, 0) == QUEUE_SLOTS
    ensures Enqueue(q, p) == q
  {}

  lemma StepConserves(q: Queue, e: Event)
    requires Conserved(q)
    ensures Conserved(Step(q, e))
  {
    hide Conserved, TakeOut, Enqueue;
    match e {
      case Put(pdu) =>
        var i := FirstFree(q.slots, 0);
        if i < QUEUE_SLOTS {
          PutInConserves(q, i, pdu);
        } else {
          FullRefuses(q, pdu);
        }
      case Get(room) =>
        var i := FirstActive(q.slots, 0);
        if i < QUEUE_SLOTS {
          TakeOutConserves(q, i, room);
        }
      case Flush => FlushConserves(q, 0);
    }
  }

  /** Over every run, nothing is lost, duplicated or invented. */
  lemma {:induction false} RunConserves(q: Queue, es: seq<Event>)
    requires Conserved(q)
    ensures Conserved(Run(q, es))
    decreases |es|
  {
    hide Conserved, Step;
    if es != [] {
      StepConserves(q, es[0]);
      RunConserves(Step(q, es[0]), es[1..]);
    }
  }

  /** A PDU goes through unaltered if and only if its payload has at most 65536 bytes. */
  lemma StoredWholeIff(p: Pdu)
    ensures Stored(p) == p <==> |p.data| <= 65536
    ensures Stored(p) == p.(data := p.data[..if |p.data| <= 65536 then |p.data| else 65536])
  {}

  /** Putting fails exactly when 64 PDUs are held, and getting exactly when none is. */
  lemma FailsIff(q: Queue, p: Pdu, room: bool)
    ensures Enqueue(q, p) == q <==> |Held(q.slots)| == 64
    ensures GetNext(q, room) == q <==> |Held(q.slots)| == 0
    ensures |Held(q.slots)| <= 64
  {
    HeldSize(q.slots);
    CountDecidesScans(q.slots);
  }

  // ----- Order

  /** What is held has entered. */
  ghost predicate Numbered(q: Queue) {
    forall i :: 0 <= i < QUEUE_SLOTS && q.slots[i].Some? ==> q.slots[i].value.arrival < |q.entered|
  }

  /** Older PDUs sit in front of younger ones. */
  ghost predicate InOrder(q: Queue) {
    && (forall i, j :: 0 <= i < j < QUEUE_SLOTS && q.slots[i].Some? && q.slots[j].Some? ==>
          q.slots[i].value.arrival < q.slots[j].value.arrival)
    && Numbered(q)
  }

  /** The first free slot has an active slot behind it. */
  predicate GapInFront(slots: Slots) {
    exists j :: FirstFree(slots, 0) < j < QUEUE_SLOTS && slots[j].Some?
  }

  lemma PutKeepsOrderIff(q: Queue, p: Pdu)
    requires InOrder(q)
    ensures InOrder(Enqueue(q, p)) <==> !GapInFront(q.slots)
  {
    var i := FirstFree(q.slots, 0);
    if GapInFront(q.slots) {
      var j :| i < j < QUEUE_SLOTS && q.slots[j].Some?;
      var after := Enqueue(q, p);
      assert after.slots[i].value.arrival == |q.entered| && after.slots[j] == q.slots[j];
    }
  }

  lemma {:induction false} FlushKeepsOrder(q: Queue, i: nat)
    requires InOrder(q) && i <= QUEUE_SLOTS
    ensures InOrder(FlushFrom(q, i)) && FlushFrom(q, i).handed == q.handed
    decreases QUEUE_SLOTS - i
  {
    if i < QUEUE_SLOTS {
      if q.slots[i].None? {
        FlushKeepsOrder(q, i + 1);
      } else {
        FlushKeepsOrder(TakeOut(q, i, false), i + 1);
      }
    }
  }

  lemma StepKeepsOrderIff(q: Queue, e: Event)
    requires InOrder(q)
    ensures InOrder(Step(q, e)) <==> (e.Put? ==> !GapInFront(q.slots))
  {
    match e {
      case Put(pdu) => PutKeepsOrderIff(q, pdu);
      case Get(room) =>
      case Flush => FlushKeepsOrder(q, 0);
    }
  }

  ghost predicate AlwaysInOrder(q: Queue, es: seq<Event>)
    decreases |es|
  {
    InOrder(q) && (es == [] || AlwaysInOrder(Step(q, es[0]), es[1..]))
  }

  ghost predicate NeverFillsGap(q: Queue, es: seq<Event>)
    decreases |es|
  {
    es == [] || ((es[0].Put? ==> !GapInFront(q.slots)) && NeverFillsGap(Step(q, es[0]), es[1..]))
  }

  /** The slots stay in order of arrival all through a run if and only if no PDU is ever put in front
    of one that is waiting. */
  lemma {:induction false} OrderIff(q: Queue, es: seq<Event>)
    requires InOrder(q)
    ensures AlwaysInOrder(q, es) <==> NeverFillsGap(q, es)
    decreases |es|
  {
    hide Step, InOrder, GapInFront;
    if es != [] {
      StepKeepsOrderIff(q, es[0]);
      if InOrder(Step(q, es[0])) {
        OrderIff(Step(q, es[0]), es[1..]);
      }
    }
  }

  /** PDUs have been handed over oldest first. */
  ghost predicate HandedRising(q: Queue) {
    forall i, j :: 0 <= i < j < |q.handed| ==> q.handed[i].arrival < q.handed[j].arrival
  }

  /** The same, and those still held are younger. */
  ghost predicate HandedInOrder(q: Queue) {
    && HandedRising(q)
    && (forall i :: 0 <= i < |q.handed| ==> q.handed[i].arrival < |q.entered|)
    && (forall i, k :: 0 <= i < |q.handed| && 0 <= k < QUEUE_SLOTS && q.slots[k].Some? ==>
          q.handed[i].arrival < q.slots[k].value.arrival)
  }

  lemma {:induction false} FlushKeepsHanded(q: Queue, i: nat)
    requires HandedInOrder(q) && i <= QUEUE_SLOTS
    ensures HandedInOrder(FlushFrom(q, i))
    decreases QUEUE_SLOTS - i
  {
    if i < QUEUE_SLOTS {
      if q.slots[i].None? {
        FlushKeepsHanded(q, i + 1);
      } else {
        FlushKeepsHanded(TakeOut(q, i, false), i + 1);
      }
    }
  }

  lemma StepKeepsHanded(q: Queue, e: Event)
    requires InOrder(q) && HandedInOrder(q)
    ensures HandedInOrder(Step(q, e))
  {
    hide Stored;
    match e {
      case Put(pdu) =>
      case Get(room) =>
      case Flush => FlushKeepsHanded(q, 0);
    }
  }

  /** In such a run PDUs are handed over in the order in which they were put in. */
  lemma {:induction false} FifoWithoutGaps(q: Queue, es: seq<Event>)
    requires InOrder(q) && HandedInOrder(q) && NeverFillsGap(q, es)
    ensures HandedInOrder(Run(q, es))
    decreases |es|
  {
    hide Step, InOrder, HandedInOrder, GapInFront;
    if es != [] {
      StepKeepsOrderIff(q, es[0]);
      StepKeepsHanded(q, es[0]);
      FifoWithoutGaps(Step(q, es[0]), es[1..]);
    }
  }

  function Gets(n: nat): seq<Event> { seq(n, _ => Get(true)) }

  lemma {:induction false} RunConcat(q: Queue, a: seq<Event>, b: seq<Event>)
    ensures Run(q, a + b) == Run(Run(q, a), b)
    decreases |a|
  {
    hide Step;
    if a == [] {
      assert a + b == b;
    } else {
      assert (a + b)[0] == a[0] && (a + b)[1..] == a[1..] + b;
      RunConcat(Step(q, a[0]), a[1..], b);
    }
  }

  /** A waiting PDU is handed over after some number of requests, and until then those behind it stay. */
  lemma {:induction false} TurnComes(q: Queue, j: nat) returns (n: nat)
    requires j < QUEUE_SLOTS && q.slots[j].Some?
    ensures var r := Run(q, Gets(n));
            && |q.handed| < |r.handed| && r.handed[..|q.handed|] == q.handed
            && r.handed[|r.handed| - 1] == q.slots[j].value
            && forall k :: j < k < QUEUE_SLOTS ==> r.slots[k] == q.slots[k]
    decreases j - FirstActive(q.slots, 0)
  {
    var f := FirstActive(q.slots, 0);
    var next := GetNext(q, true);
    assert f <= j && next.handed == q.handed + [q.slots[f].value];
    if f == j {
      n := 1;
      assert Gets(1)[0] == Get(true) && Gets(1)[1..] == [];
    } else {
      var m := TurnComes(next, j);
      n := m + 1;
      assert Gets(n)[0] == Get(true) && Gets(n)[1..] == Gets(m);
      assert Run(q, Gets(n)) == Run(next, Gets(m));
    }
  }

  /** However long the daemon keeps asking, PDUs have been handed over oldest first. */
  ghost predicate HandsInOrder(q: Queue) {
    forall n: nat {:trigger Gets(n)} :: HandedRising(Run(q, Gets(n)))
  }

  lemma OutOfOrderIsHandedOutOfOrder(q: Queue, i: nat, j: nat) returns (n: nat)
    requires i < j < QUEUE_SLOTS && q.slots[i].Some? && q.slots[j].Some?
    requires q.slots[i].value.arrival >= q.slots[j].value.arrival
    ensures !HandedRising(Run(q, Gets(n)))
  {
    hide Run;
    var n1 := TurnComes(q, i);
    var q1 := Run(q, Gets(n1));
    var n2 := TurnComes(q1, j);
    n := n1 + n2;
    assert Gets(n1) + Gets(n2) == Gets(n);
    RunConcat(q, Gets(n1), Gets(n2));
    var r := Run(q, Gets(n));
    assert r.handed[|q1.handed| - 1] == r.handed[..|q1.handed|][|q1.handed| - 1] == q.slots[i].value;
    assert r.handed[|r.handed| - 1] == q.slots[j].value;
  }

  lemma {:induction false} AskingFillsNoGap(q: Queue, n: nat)
    ensures NeverFillsGap(q, Gets(n))
    decreases n
  {
    if n > 0 {
      assert Gets(n)[0] == Get(true) && Gets(n)[1..] == Gets(n - 1);
      AskingFillsNoGap(GetNext(q, true), n - 1);
    }
  }

  /** A queue that has handed over in order so far goes on doing so if and only if its slots are in order. */
  lemma HandsInOrderIff(q: Queue)
    requires HandedInOrder(q) && Numbered(q)
    ensures HandsInOrder(q) <==> InOrder(q)
  {
    if InOrder(q) {
      forall n: nat
        ensures HandedRising(Run(q, Gets(n)))
      {
        hide Run, InOrder;
        AskingFillsNoGap(q, n);
        FifoWithoutGaps(q, Gets(n));
      }
    } else {
      hide Run, HandedRising;
      var i, j :| 0 <= i < j < QUEUE_SLOTS && q.slots[i].Some? && q.slots[j].Some? &&
                  q.slots[i].value.arrival >= q.slots[j].value.arrival;
      var n := OutOfOrderIsHandedOutOfOrder(q, i, j);
      assert !HandedRising(Run(q, Gets(n)));
    }
  }

  /** At every point of the run the daemon, however long it keeps asking, is served oldest first. */
  ghost predicate AlwaysHandsInOrder(q: Queue, es: seq<Event>)
    decreases |es|
  {
    HandsInOrder(q) && (es == [] || AlwaysHandsInOrder(Step(q, es[0]), es[1..]))
  }

  lemma {:induction false} FlushKeepsNumbered(q: Queue, i: nat)
    requires Numbered(q) && i <= QUEUE_SLOTS
    ensures Numbered(FlushFrom(q, i))
    decreases QUEUE_SLOTS - i
  {
    if i < QUEUE_SLOTS {
      FlushKeepsNumbered(if q.slots[i].None? then q else TakeOut(q, i, false), i + 1);
    }
  }

  lemma StepKeepsNumbered(q: Queue, e: Event)
    requires Numbered(q)
    ensures Numbered(Step(q, e))
  {
    if e.Flush? {
      FlushKeepsNumbered(q, 0);
    }
  }

  /** The daemon is served in order all through a run if and only if no PDU is ever put in front of
    one that is waiting. */
  lemma {:induction false} HandOverIff(q: Queue, es: seq<Event>)
    requires InOrder(q) && HandedInOrder(q)
    ensures AlwaysHandsInOrder(q, es) <==> NeverFillsGap(q, es)
    decreases |es|
  {
    InOrderIsNumbered(q);
    hide Step, InOrder, HandedInOrder, Numbered, HandsInOrder, GapInFront;
    HandsInOrderIff(q);
    if es != [] {
      var next := Step(q, es[0]);
      StepKeepsOrderIff(q, es[0]);
      StepKeepsHanded(q, es[0]);
      StepKeepsNumbered(q, es[0]);
      HandsInOrderIff(next);
      if InOrder(next) {
        HandOverIff(next, es[1..]);
      }
    }
  }

  lemma InOrderIsNumbered(q: Queue)
    requires InOrder(q)
    ensures Numbered(q)
  {}

  function Puts(ps: seq<Pdu>): seq<Event> { seq(|ps|, i requires 0 <= i < |ps| => Put(ps[i])) }

  /** The first `n` slots hold the PDUs of a batch from the `from`-th on. */
  ghost predicate HoldsBatch(q: Queue, ps: seq<Pdu>, from: nat, n: nat)
    requires from <= n <= |ps| <= QUEUE_SLOTS
  {
    && |q.entered| == n
    && (forall i :: 0 <= i < QUEUE_SLOTS ==>
          q.slots[i] == if from <= i < n then Some(Entry(Stored(ps[i]), i)) else None)
    && |q.handed| == from && forall i :: 0 <= i < from ==> q.handed[i] == Entry(Stored(ps[i]), i)
  }

  lemma {:induction false} BatchGoesIn(q: Queue, ps: seq<Pdu>, n: nat)
    requires n <= |ps| <= QUEUE_SLOTS && HoldsBatch(q, ps, 0, n)
    ensures HoldsBatch(Run(q, Puts(ps[n..])), ps, 0, |ps|)
    decreases |ps| - n
  {
    if n < |ps| {
      assert Puts(ps[n..])[0] == Put(ps[n]) && Puts(ps[n..])[1..] == Puts(ps[n + 1..]);
      assert FirstFree(q.slots, 0) == n;
      BatchGoesIn(Enqueue(q, ps[n]), ps, n + 1);
    }
  }

  lemma {:induction false} BatchComesOut(q: Queue, ps: seq<Pdu>, from: nat)
    requires from <= |ps| <= QUEUE_SLOTS && HoldsBatch(q, ps, from, |ps|)
    ensures HoldsBatch(Run(q, Gets(|ps| - from)), ps, |ps|, |ps|)
    decreases |ps| - from
  {
    if from < |ps| {
      assert Gets(|ps| - from)[0] == Get(true) && Gets(|ps| - from)[1..] == Gets(|ps| - (from + 1));
      assert q.slots[from].Some?;
      assert FirstActive(q.slots, 0) == from;
      BatchComesOut(GetNext(q, true), ps, from + 1);
    }
  }

  /** A batch of up to 64 PDUs put into an empty queue comes out in order. */
  lemma BatchInOrder(ps: seq<Pdu>)
    requires |ps| <= QUEUE_SLOTS
    ensures var q := Run(EMPTY, Puts(ps) + Gets(|ps|));
            && |q.handed| == |ps|
            && (forall i :: 0 <= i < |ps| ==> q.handed[i].pdu == Stored(ps[i]))
            && q.slots == NO_ENTRIES
  {
    hide Run;
    RunConcat(EMPTY, Puts(ps), Gets(|ps|));
    assert ps[0..] == ps;
    BatchGoesIn(EMPTY, ps, 0);
    BatchComesOut(Run(EMPTY, Puts(ps)), ps, 0);
  }

  // ----- Overtaking

  /** `n` rounds in which the daemon takes a PDU and another is put in. */
  function Rounds(p: Pdu, n: nat): seq<Event> {
    if n == 0 then [] else Rounds(p, n - 1) + [Get(true), Put(p)]
  }

  lemma RunTwo(q: Queue, a: Event, b: Event)
    ensures Run(q, [a, b]) == Step(Step(q, a), b)
  {
    hide Step;
    assert [a, b][1..] == [b] && [b][1..] == [];
    assert Run(Step(q, a), [b]) == Run(Step(Step(q, a), b), []);
  }

  ghost predicate Stuck(q: Queue, e: Entry) {
    && q.slots[0].Some? && q.slots[1] == Some(e) && (forall i :: 2 <= i < QUEUE_SLOTS ==> q.slots[i].None?)
  }

  lemma RoundKeepsStuck(q: Queue, e: Entry, p: Pdu)
    requires Stuck(q, e)
    ensures var r := Step(Step(q, Get(true)), Put(p));
            Stuck(r, e) && r.handed == q.handed + [q.slots[0].value] && r.slots[0].value.pdu == Stored(p)
  {
    assert FirstActive(q.slots, 0) == 0;
    var g := Step(q, Get(true));
    assert FirstFree(g.slots, 0) == 0;
  }

  lemma {:induction false} Overtaken(q: Queue, e: Entry, p: Pdu, n: nat)
    requires Stuck(q, e)
    ensures var r := Run(q, Rounds(p, n));
            && Stuck(r, e) && |r.handed| == |q.handed| + n
            && (forall k :: |q.handed| < k < |r.handed| ==> r.handed[k].pdu == Stored(p))
            && (n > 0 ==> r.slots[0].value.pdu == Stored(p))
    decreases n
  {
    hide Step, Stuck;
    if n > 0 {
      Overtaken(q, e, p, n - 1);
      var before := Run(q, Rounds(p, n - 1));
      RunConcat(q, Rounds(p, n - 1), [Get(true), Put(p)]);
      RunTwo(before, Get(true), Put(p));
      RoundKeepsStuck(before, e, p);
    }
  }

  /** The queue is not first in, first out: a PDU put in second can be overtaken by any number of
    PDUs put in after it. With `n == 1` the run is: put, put, get, put. */
  lemma SecondCanStarve(a: Pdu, b: Pdu, c: Pdu, n: nat)
    ensures var q := Run(EMPTY, [Put(a), Put(b)] + Rounds(c, n));
            && q.slots[1] == Some(Entry(Stored(b), 1)) && |q.handed| == n
            && (forall k :: 0 < k < n ==> q.handed[k].pdu == Stored(c))
            && (n > 0 ==> GetNext(q, true).handed[n].pdu == Stored(c))
  {
    RunConcat(EMPTY, [Put(a), Put(b)], Rounds(c, n));
    RunTwo(EMPTY, Put(a), Put(b));
    var start := Step(Step(EMPTY, Put(a)), Put(b));
    assert FirstFree(EMPTY.slots, 0) == 0;
    assert FirstFree(Step(EMPTY, Put(a)).slots, 0) == 1;
    hide Run, Rounds;
    Overtaken(start, Entry(Stored(b), 1), c, n);
    var q := Run(start, Rounds(c, n));
    assert FirstActive(q.slots, 0) == 0;
  }

  // ----- The queue itself

  class OutgoingQueue {
    const slots: array<Option<Entry>>
    var entered: seq<Entry>
    var handed: seq<Entry>
    var dropped: seq<Entry>

    ghost predicate Valid() { slots.Length == QUEUE_SLOTS }

    ghost function View(): Queue
      requires Valid()
      reads this, slots
    {
      Queue(slots[..], entered, handed, dropped)
    }

    constructor ()
      ensures Valid() && fresh(slots) && View() == EMPTY
    {
      slots := new Option<Entry>[QUEUE_SLOTS](_ => None);
      entered, handed, dropped := [], [], [];
      new;
      assert slots[..] == NO_ENTRIES;
    }

    method EnqueuePdu(p: Pdu) returns (ok: bool)
      requires Valid()
      modifies this, slots
      ensures View() == Enqueue(old(View()), p)
      ensures ok <==> |Held(old(View()).slots)| < 64
    {
      FailsIff(View(), p, true);
      for i := 0 to QUEUE_SLOTS
        invariant View() == old(View())
        invariant FirstFree(old(View()).slots, 0) == FirstFree(old(View()).slots, i)
      {
        if slots[i].None? {
          var data := p.data;
          if |data| > MAX_DATA {
            data := data[..MAX_DATA];
          }
          var e := Entry(p.(data := data), |entered|);
          slots[i] := Some(e);
          entered := entered + [e];
          return true;
        }
      }
      return false;
    }

    /** Takes the first PDU out of its slot and leaves it with the caller. */
    method DequeuePdu() returns (e: Option<Entry>)
      requires Valid()
      modifies slots
      ensures var i := FirstActive(old(View()).slots, 0);
              && e == (if i == QUEUE_SLOTS then None else old(View()).slots[i])
              && View() == if i == QUEUE_SLOTS then old(View()) else old(View()).(slots := old(View()).slots[i := None])
      ensures e.None? <==> |Held(old(View()).slots)| == 0
    {
      HeldSize(View().slots);
      CountDecidesScans(View().slots);
      for i := 0 to QUEUE_SLOTS
        invariant View() == old(View())
        invariant FirstActive(old(View()).slots, 0) == FirstActive(old(View()).slots, i)
      {
        if slots[i].Some? {
          e := slots[i];
          slots[i] := None;
          return;
        }
      }
      return None;
    }

    /** The daemon's request for the next PDU; `room` tells whether its buffer can take a whole one. */
    method GetNextPdu(room: bool) returns (p: Option<Pdu>)
      requires Valid()
      modifies this, slots
      ensures View() == GetNext(old(View()), room)
      ensures p.Some? ==> handed != [] && handed[|handed| - 1].pdu == p.value
      ensures p.None? <==> !room || |Held(old(View()).slots)| == 0
    {
      var e := DequeuePdu();
      if e.None? {
        return None;
      }
      if !room {
        dropped := dropped + [e.value];
        return None;
      }
      handed := handed + [e.value];
      return Some(e.value.pdu);
    }

    method Count() returns (n: nat)
      requires Valid()
      ensures n == |Held(View().slots)|
    {
      n := 0;
      assert slots[..QUEUE_SLOTS] == View().slots;
      for i := 0 to QUEUE_SLOTS
        invariant n == |Held(slots[..i])|
      {
        assert slots[..i + 1][..i] == slots[..i];
        if slots[i].Some? {
          n := n + 1;
        }
      }
    }

    method FreeAll()
      requires Valid()
      modifies this, slots
      ensures View() == FlushFrom(old(View()), 0)
    {
      for i := 0 to QUEUE_SLOTS
        invariant FlushFrom(View(), i) == FlushFrom(old(View()), 0)
      {
        if slots[i].Some? {
          dropped := dropped + [slots[i].value];
          slots[i] := None;
        }
      }
    }
  }
}
