/** Scans of an array of slots from the front, as the driver extension makes them. */
module SlotScan {
  import opened Words

  function FirstFree<T>(slots: seq<Option<T>>, i: nat): (k: nat)
    requires i <= |slots|
    ensures i <= k <= |slots| && (k < |slots| ==> slots[k].None?)
    ensures forall j :: i <= j < k ==> slots[j].Some?
    decreases |slots| - i
  {
    if i == |slots| || slots[i].None? then i else FirstFree(slots, i + 1)
  }

  function FirstActive<T>(slots: seq<Option<T>>, i: nat): (k: nat)
    requires i <= |slots|
    ensures i <= k <= |slots| && (k < |slots| ==> slots[k].Some?)
    ensures forall j :: i <= j < k ==> slots[j].None?
    decreases |slots| - i
  {
    if i == |slots| || slots[i].Some? then i else FirstActive(slots, i + 1)
  }

  function ActiveCount<T>(slots: seq<Option<T>>): nat
    decreases |slots|
  {
    if slots == [] then 0 else ActiveCount(slots[..|slots| - 1]) + if slots[|slots| - 1].Some? then 1 else 0
  }

  lemma {:induction false} ActiveCountUpdate<T>(slots: seq<Option<T>>, i: nat, s: Option<T>)
    requires i < |slots|
    ensures ActiveCount(slots[i := s]) ==
            ActiveCount(slots) - (if slots[i].Some? then 1 else 0) + if s.Some? then 1 else 0
    decreases |slots|
  {
    var n := |slots| - 1;
    if i == n {
      assert slots[i := s][..n] == slots[..n];
    } else {
      assert slots[i := s][..n] == slots[..n][i := s];
      ActiveCountUpdate(slots[..n], i, s);
    }
  }

  /** Counting the active slots tells whether the scans for a free or an active slot succeed. */
  lemma {:induction false} CountDecidesScans<T>(slots: seq<Option<T>>)
    ensures ActiveCount(slots) <= |slots|
    ensures ActiveCount(slots) == |slots| <==> FirstFree(slots, 0) == |slots|
    ensures ActiveCount(slots) == 0 <==> FirstActive(slots, 0) == |slots|
    decreases |slots|
  {
    if slots != [] {
      var n := |slots| - 1;
      CountDecidesScans(slots[..n]);
      assert forall k :: 0 <= k < n ==> slots[..n][k] == slots[k];
    }
  }
}
