/** What several components share. */
module Basics {

  const U32: nat := 0x1_0000_0000
  const U64: nat := 0x1_0000_0000_0000_0000

  datatype Option<+T> = None | Some(value: T)

  type Byte = x: int | 0 <= x < 256

  ghost predicate NoDup<T>(s: seq<T>) {
    forall i, j :: 0 <= i < j < |s| ==> s[i] != s[j]
  }

  lemma MulLe(a: int, b: int, c: nat)
    ensures a <= b ==> a * c <= b * c
    ensures (a + 1) * c == a * c + c
  {
    if a <= b {
      assert (b - a) * c >= 0;
    }
  }

  /** The capacity after doubling until `size` fits: at least `size`, but not twice as much. */
  function Doubled(capacity: nat, size: nat): (r: nat)
    requires capacity > 0
    ensures size <= r && capacity <= r && (size > capacity ==> r < 2 * size)
    decreases size - capacity
  {
    if size <= capacity then capacity else Doubled(2 * capacity, size)
  }

  /** d with s written over it from position `to` on. */
  function Pasted<T>(d: seq<T>, to: nat, s: seq<T>): (e: seq<T>)
    requires to + |s| <= |d|
    ensures |e| == |d|
  {
    d[..to] + s + d[to + |s|..]
  }

  /** memcpy or memmove of n bytes. */
  method Copy(dst: array<Byte>, to: nat, src: array<Byte>, from: nat, n: nat)
    requires to + n <= dst.Length && from + n <= src.Length
    modifies dst
    ensures dst[..] == Pasted(old(dst[..]), to, old(src[from..from + n]))
  {
    forall i | 0 <= i < n {
      dst[to + i] := src[from + i];
    }
  }
}
