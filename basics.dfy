/** Failure-carrying values and sequence concatenation shared by the other modules. */
module Basics {

  /** An optional value; `None` stands for an exception the source catches and turns into an empty result. */
  datatype Option<T> = None | Some(value: T)

  /** A value or the error the source throws instead of returning one. */
  datatype Result<T, E> = Ok(value: T) | Err(error: E)

  /** All the pieces of `xss`, joined in order. */
  function Flatten<T>(xss: seq<seq<T>>): seq<T>
  {
    if xss == [] then [] else xss[0] + Flatten(xss[1..])
  }

  /** Appending one more piece appends its contents at the end. */
  lemma {:induction false} FlattenSnoc<T>(xss: seq<seq<T>>, xs: seq<T>)
    ensures Flatten(xss + [xs]) == Flatten(xss) + xs
    decreases |xss|
  {
    if xss == [] {
      assert [xs][1..] == [];
    } else {
      assert (xss + [xs])[1..] == xss[1..] + [xs];
      FlattenSnoc(xss[1..], xs);
    }
  }

  /** Flattening two sequences of pieces one after the other is flattening them joined. */
  lemma {:induction false} FlattenAppend<T>(xss: seq<seq<T>>, yss: seq<seq<T>>)
    ensures Flatten(xss + yss) == Flatten(xss) + Flatten(yss)
    decreases |xss|
  {
    if xss == [] {
      assert xss + yss == yss;
    } else {
      assert (xss + yss)[1..] == xss[1..] + yss;
      FlattenAppend(xss[1..], yss);
    }
  }

  /** Every element of a piece is an element of the flattened sequence, and conversely. */
  lemma {:induction false} FlattenMembership<T>(xss: seq<seq<T>>, x: T)
    ensures x in Flatten(xss) <==> exists j :: 0 <= j < |xss| && x in xss[j]
    decreases |xss|
  {
    if xss != [] {
      FlattenMembership(xss[1..], x);
      if x in Flatten(xss[1..]) {
        var j :| 0 <= j < |xss[1..]| && x in xss[1..][j];
        assert x in xss[j + 1];
      }
      if exists j :: 0 <= j < |xss| && x in xss[j] {
        var j :| 0 <= j < |xss| && x in xss[j];
        if j > 0 {
          assert x in xss[1..][j - 1];
        }
      }
    }
  }
}
