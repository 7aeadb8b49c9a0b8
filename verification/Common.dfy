/** Small shared definitions. */
module Common {

  /** Two to the width of an address or a machine word. */
  const Modulus: int := 0x1_0000_0000_0000_0000

  datatype Option<+T> = None | Some(value: T) {
    predicate IsFailure() { None? }
    function PropagateFailure<U>(): Option<U> requires None? { None }
    function Extract(): T requires Some? { value }
  }

  function Min(a: int, b: int): int {
    if a < b then a else b
  }

  function Max(a: int, b: int): int {
    if a < b then b else a
  }

  ghost predicate Distinct<T>(s: seq<T>) {
    forall i, j :: 0 <= i < j < |s| ==> s[i] != s[j]
  }

  lemma Assoc<T>(a: seq<T>, b: seq<T>, c: seq<T>)
    ensures a + b + c == a + (b + c)
  {
  }
}
