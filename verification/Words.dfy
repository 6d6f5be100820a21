/** Fixed-width counters, optional values and lists. */
module Words {

  datatype Option<T> = None | Some(value: T)

  type u32 = n: int | 0 <= n < 0x1_0000_0000

  type u64 = n: int | 0 <= n < 0x1_0000_0000_0000_0000

  /** The value a 32-bit counter holds after counting to `n`. */
  function Wrap32(n: nat): u32 { n % 0x1_0000_0000 }

  function Inc32(n: u32): u32 { Wrap32(n + 1) }

  function Dec32(n: u32): u32 { if n == 0 then 0xffff_ffff else n - 1 }

  lemma WrapAdd(a: nat, b: nat)
    ensures Wrap32(Wrap32(a) + b) == Wrap32(a + b)
  {}

  ghost predicate NoRepeats<T(!new)>(s: seq<T>) {
    forall i, j :: 0 <= i < j < |s| ==> s[i] != s[j]
  }

  function Occurrences<T(==)>(s: seq<T>, x: T): nat
    decreases |s|
  {
    if s == [] then 0 else Occurrences(s[..|s| - 1], x) + if s[|s| - 1] == x then 1 else 0
  }

  lemma {:induction false} OccursOnce<T(!new)>(s: seq<T>, x: T)
    requires NoRepeats(s)
    ensures Occurrences(s, x) == if x in s then 1 else 0
    decreases |s|
  {
    if s != [] {
      OccursOnce(s[..|s| - 1], x);
      assert s == s[..|s| - 1] + [s[|s| - 1]];
    }
  }

  lemma {:induction false} OccurrencesConcat<T>(s: seq<T>, t: seq<T>, x: T)
    ensures Occurrences(s + t, x) == Occurrences(s, x) + Occurrences(t, x)
    decreases |t|
  {
    if t == [] {
      assert s + t == s;
    } else {
      assert (s + t)[..|s + t| - 1] == s + t[..|t| - 1];
      OccurrencesConcat(s, t[..|t| - 1], x);
    }
  }
}
