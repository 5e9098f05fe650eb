/** Bytes of the caller's buffer and Go's built-in `copy` on one buffer. */
module Bytes {

  /** A Go `byte`. */
  type byte = b: int | 0 <= b < 256

  const TAB: byte := 9
  const SPACE: byte := 32
  const QUOTE: byte := 34
  const PLUS: byte := 43
  const MINUS: byte := 45
  const DOT: byte := 46
  const ZERO: byte := 48
  const NINE: byte := 57
  const UPPER_A: byte := 65
  const UPPER_E: byte := 69
  const UPPER_Z: byte := 90
  const LOWER_A: byte := 97
  const LOWER_E: byte := 101
  const LOWER_Z: byte := 122

  predicate IsDigit(c: byte) { ZERO <= c <= NINE }

  function Min(x: int, y: int): (m: int)
    ensures m <= x && m <= y && (m == x || m == y)
  {
    if x <= y then x else y
  }

  /**
   * Go's `copy(a[dst:], a[src:hi])` where both slices share the array `a`:
   * it copies min(len(a[dst:]), len(a[src:hi])) bytes as if through a
   * temporary (memmove), so overlapping ranges are handled in either
   * direction, and returns the number of bytes copied.
   */
  method Copy(a: array<byte>, dst: nat, src: nat, hi: nat) returns (n: nat)
    requires dst <= a.Length && src <= hi <= a.Length
    modifies a
    ensures n == Min(a.Length - dst, hi - src)
    ensures forall p :: dst <= p < dst + n ==> a[p] == old(a[p - dst + src])
    ensures forall t :: 0 <= t < a.Length && !(dst <= t < dst + n) ==> a[t] == old(a[t])
    ensures a[dst..dst + n] == old(a[src..src + n])
  {
    n := Min(a.Length - dst, hi - src);
    if dst <= src {
      var k := 0;
      while k < n
        invariant 0 <= k <= n
        invariant forall p :: dst <= p < dst + k ==> a[p] == old(a[p - dst + src])
        invariant forall t :: 0 <= t < a.Length && !(dst <= t < dst + k) ==> a[t] == old(a[t])
      {
        a[dst + k] := a[src + k];
        k := k + 1;
      }
    } else {
      var k := n;
      while k > 0
        invariant 0 <= k <= n
        invariant forall p :: dst + k <= p < dst + n ==> a[p] == old(a[p - dst + src])
        invariant forall t :: 0 <= t < a.Length && !(dst + k <= t < dst + n) ==> a[t] == old(a[t])
      {
        k := k - 1;
        a[dst + k] := a[src + k];
      }
    }
  }
}
