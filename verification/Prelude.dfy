/** Types shared by the whole model. */
module Prelude {
  /** A Go byte slice. */
  type Bytes = seq<bv8>

  datatype Option<+T> = None | Some(value: T)

  /** A Go `(value, error)` pair. */
  datatype Result<+T> = Ok(value: T) | Err(error: string)

  /** The elements of a sequence, as a set. */
  function Elements<T>(s: seq<T>): set<T> {
    set x | x in s
  }

  ghost function Pick<T>(s: set<T>): (x: T)
    requires s != {}
    ensures x in s
  {
    var x :| x in s;
    x
  }

  /** A nonempty finite set of integers has a largest element. */
  lemma {:induction false} MaxExists(s: set<int>)
    requires s != {}
    ensures exists m :: m in s && forall x | x in s :: x <= m
    decreases |s|
  {
    var x := Pick(s);
    var rest := s - {x};
    if rest == {} {
      assert s == {x};
    } else {
      MaxExists(rest);
      var m :| m in rest && forall y | y in rest :: y <= m;
      assert forall y | y in s :: y == x || y in rest;
      if m < x {
        assert x in s && forall y | y in s :: y <= x;
      } else {
        assert m in s && forall y | y in s :: y <= m;
      }
    }
  }
}
