/** Shared vocabulary: optional values, machine integers, and 32-bit clock arithmetic. */
module Common {
  datatype Option<+T> = None | Some(value: T) {
    function GetOr(default: T): T {
      if Some? then value else default
    }
  }

  type NodeId = nat

  type byte = x: int | 0 <= x < 256

  type uint16 = x: int | 0 <= x < 0x1_0000

  const UINT32: int := 0x1_0000_0000
  const UINT32_MAX: int := 0xFFFF_FFFF

  /** The longest packet, and the id that addresses everyone. */
  const MAX_PKT_SIZE := 240
  const BROADCAST_ID: byte := 0xFF

  type uint32 = x: int | 0 <= x < 0x1_0000_0000

  function Abs(x: int): int {
    if x < 0 then -x else x
  }

  /** `a - b` on `uint32_t`, which wraps. */
  function Sub32(a: uint32, b: uint32): (r: uint32)
    ensures r == if b <= a then a - b else UINT32 - (b - a)
  {
    (a - b) % UINT32
  }

  ghost predicate Distinct<T>(s: seq<T>) {
    forall i, j :: 0 <= i < j < |s| ==> s[i] != s[j]
  }

  /** A sequence without repetitions has as many elements as positions. */
  lemma {:induction false} DistinctCardinality<T>(s: seq<T>)
    requires Distinct(s)
    ensures |set x | x in s| == |s|
  {
    if s == [] {
      assert (set x | x in s) == {};
    } else {
      var front := s[..|s| - 1];
      DistinctCardinality(front);
      assert (set x | x in s) == (set x | x in front) + {s[|s| - 1]};
    }
  }

  lemma {:induction false} SubsetCardinality<T>(a: set<T>, b: set<T>)
    requires a <= b
    ensures |a| <= |b|
  {
    if a != {} {
      var x :| x in a;
      SubsetCardinality(a - {x}, b - {x});
    }
  }

  lemma AppendAssoc<T>(a: seq<T>, b: seq<T>, c: seq<T>)
    ensures (a + b) + c == a + (b + c)
  {
  }

  lemma AppendEmpty<T>(a: seq<T>)
    ensures a + [] == a && [] + a == a
  {
  }
}
