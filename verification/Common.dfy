/** Small data types shared by all modules. */
module Common {

  /** A value that may be absent: a SQL NULL, a missing row, a nil pointer. */
  datatype Option<+T> = None | Some(value: T)

  /** The value a call returns, or the reason it failed. */
  datatype Result<+T, +E> = Ok(value: T) | Err(error: E)

  /** The entry statuses. */
  const UNREAD := "unread"
  const READ := "read"

  /** A byte of a Go string. */
  type Byte = bv8

  function Min(a: int, b: int): int { if a <= b then a else b }

  function Max(a: int, b: int): int { if a >= b then a else b }

  lemma Pick<T>(s: set<T>) returns (x: T)
    requires s != {}
    ensures x in s
  {
    x :| x in s;
  }

  lemma SubsetSize<T>(a: set<T>, b: set<T>)
    requires a <= b
    ensures |a| <= |b|
    ensures |a| == |b| ==> a == b
  {
    assert b == a + (b - a);
  }

  lemma NonEmpty(s: set<int>)
    requires s != {}
    ensures exists x :: x in s
  {
    var x := Pick(s);
  }
}
