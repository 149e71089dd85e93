/** Shared vocabulary: bytes, optional values and small predicates on sequences. */
module Base {

  /** One byte of a frame or of console input. */
  type Byte = b: int | 0 <= b < 256

  /** Size of the publisher's read buffer `bs` (craas.go:78), hence the largest frame. */
  const MAX_FRAME: nat := 256

  datatype Option<T> = None | Some(value: T)

  function Min(a: nat, b: nat): (m: nat)
    ensures m <= a && m <= b && (m == a || m == b)
  {
    if a <= b then a else b
  }

  /** No element occurs twice. */
  predicate Distinct<T(==)>(s: seq<T>) {
    forall i, j :: 0 <= i < j < |s| ==> s[i] != s[j]
  }

  predicate StrictlyIncreasing(s: seq<int>) {
    forall i, j :: 0 <= i < j < |s| ==> s[i] < s[j]
  }

  /** The set of elements of a sequence. */
  function Elems<T>(s: seq<T>): set<T> {
    set x | x in s
  }
}
